# chezmoi-net, verified

chezmoi-net is a small RPC hub: clients connect over a WebSocket or KCP socket, host or join a
session, and call each other's services through the hub with JSON-RPC. This project models the parts
with laws of their own and proves them for all inputs and all runs.

- `Addressing.dfy`: the names `[target]Service.Method`: printed, parsed, and normalised by the relay.
- `Wire.dfy`, `ClientCodec.dfy`, `ServerCodec.dfy`: the two JSON-RPC codecs as objects, with the
  functions they compute. The rule that a response carries its request's id is section 5 of the
  JSON-RPC 2.0 specification.
- `RpcSystem.dfy`, `RpcConnection.dfy`: one connection as a step system (client codec, request wire,
  server codec and RPC layer, response wire), and the codec objects driven through its runs.
- `HubState.dfy`: the hub and its sessions as a state machine, with the calls each step makes.
- `HubObjects.dfy`, `HubServer.dfy`: the hub as an object updated in place, and that object serving
  any log of operations.
- `HubDiscipline.dfy`, `HubHistory.dfy`, `HubCalls.dfy`: what holds over runs, with and without well-behaved
  clients: who is in a session, and every call the hub makes, as functions of the log of operations.
- `EndToEnd.dfy`: from the printed name of a call to the clients the hub calls, and its result back.
- `Framing.dfy`: length-prefixed frames over a connection cut into chunks.
- `NetConn.dfy`, `Demux.dfy`: a channel as a byte stream, and one socket feeding many channels.
- `RingQueue.dfy`: the ring-buffer queue.

`dafny verify dfyconfig.toml` checks everything.

## How to read it

Code that changes state is a class whose methods are proved against functions on plain values
(`View()` and a `Step`, `Read`, `Receive`, ... function); the laws are lemmas about runs of those
functions. The hub and its session manager, which point at each other, are one object here.
`HubServer.Serve`, `RpcConnection.Carry`, `RingQueue.Serve` and the two `Serve` methods of `Demux` close
the gap: the objects follow the runs.

A run is *disciplined* (`HubDiscipline.Disciplined`) when clients behave as the bundled client does:
ids are unique (they are uuids), only registered clients call Host and Join, a client enters a session
at most once, and every Host uses a session id not hosted before. Theorems that need this say so.

Where a natural law fails, the exact condition is proved:

- A target that contains `]` is cut at it, and a service name that is empty or has a dot does not come
  back as the channel (`Addressing.PrintParseRoundTrip` is an equivalence).
- A service method that begins with `]` makes WriteRequest panic after it has recorded the call as
  pending and taken the mutex, which stays held: every later call on the codec waits for ever
  (`Addressing.ParseReassembles`, `ClientCodec.Codec.WriteRequest`).
- A server codec whose 64-bit counter comes round to a number still unanswered overwrites that
  request, whose answer then goes to the later one (`ServerCodec.LostExactlyWhenNumberReused`,
  `ServerCodec.AcceptKeepsAllExactlyWhenFresh`, `ServerCodec.FullTurnLosesTheFirst`).
- A Host served when its caller's id is not registered, or such a Join of an existing session, dereferences
  nil and ends the hub (`HubHistory.CrashesExactlyForTheUnregistered`, `HubHistory.LateCallsCrash`).
- A chunk that holds the end of one frame and the start of the next loses bytes, because every
  ReceiveUDP makes a fresh buffered reader (`Framing.LosesNothingExactlyAtBoundary`,
  `Framing.IntactExactlyWhenCutWithinFrames`, `Framing.MergedFramesSurviveExactlyWhenReadDirectly`); a message
  of 2^32 bytes or more comes back truncated (`Framing.FrameRoundTrip`).
- A connection that ends right behind the header of a frame ends with the error of a clean end
  (`Framing.CutConversation`).
- The error of a remote service never reaches the caller, because the relay reports only the error of its own
  call to the hub (`EndToEnd.CallReturnsTheTargetsResult`); a private call to an id that is not in the session
  comes back like one without a result (`EndToEnd.CallWithoutTargetReturnsNothing`).
- A client that hosts twice leaves an orphan session when it unregisters
  (`HubDiscipline.NoOrphanExactlyWhenHostIsSeated`, `HubDiscipline.HostingTwiceOrphans`).
- A member that moved to another session is told that one's id when the first closes
  (`HubHistory.ClosingNamesTheSessionExactlyWhenNobodyMoved`).

The repository's README shows GetServiceName with one argument; the model follows the code, which takes
the service, the method and a target.

## Model

| member | source | states |
|---|---|---|
| Addressing.PrintParseRoundTrip | client/client.go:454-461 | a printed target, method and channel are read back exactly when the target has no `]` and the service is a non-empty name without a dot |
| Addressing.NoTargetRoundTrip | jsonrpc/jsonrpc-client.go:58-75 | a call without target is addressed to `-1` with its method whole, exactly for such service names |
| Addressing.ParseReassembles | jsonrpc/jsonrpc-client.go:58-64 | parsing panics exactly on a leading `]`; otherwise target and method put together are the name, less the one character in front |
| Addressing.BracketCutsTheTarget | jsonrpc/jsonrpc-client.go:60-64 | a target containing `]` loses everything from its first `]` on |
| Addressing.PrintingIsInjective | client/client.go:454-461 | calls with the same printed name have the same service, method and shown target, for services without a dot and targets without `]` |
| Addressing.ChannelIsThePrefix | jsonrpc/jsonrpc-client.go:65-70 | the channel is the part of the method in front of the first dot, or all of it when there is no dot or nothing in front |
| ClientCodec.RequestIsTheNameTakenApart | jsonrpc/jsonrpc-client.go:58-77 | the record written for a name: `[`, target, `]` and method put together are the name; a name without `]` is all method, for target `-1`; id, parameters and channel are the call's |
| ClientCodec.PrintedRequest | client/client.go:405-417 | of the record written for a printed call the relay keeps the part of the target in front of its first `]`, `-1` as none; the method is `Service.Method` exactly when the target has no `]` |
| ClientCodec.HubSeesTheTarget | client/client.go:405-417 | so the hub is given the caller's own target exactly when that has no `]` |
| ClientCodec.CallFailsExactlyWhenErrorIsPresent | jsonrpc/jsonrpc-client.go:93-117 | any response with a null or uint64 id settles exactly the call with that id, a null id being 0, and reports it failed exactly when the error member is not null; an object there fails the codec; any other id does nothing |
| Addressing.AddressIsPlain | jsonrpc/jsonrpc-client.go:58-75 | the request names the plain method on the service's channel exactly when the target has no `]` and the service is a non-empty name without a dot |
| Addressing.ChannelOfPrinted | client/client.go:197-213 | the channel of `Service.Method` is the service exactly when the service is non-empty and has no dot |
| ClientCodec.Codec.WriteRequest | jsonrpc/jsonrpc-client.go:54-77 | the id is pending even when the call panics, and the panic leaves the mutex held, so every later call waits for ever; otherwise the record written is the parsed address with the id |
| ClientCodec.Codec.ReadResponseHeader | jsonrpc/jsonrpc-client.go:93-117 | the header names the method pending under the id, which is settled, also when the error member is unusable; an undecodable id settles nothing; with the mutex held the call waits |
| ClientCodec.Codec.ReadResponseBody | jsonrpc/jsonrpc-client.go:119-124 | the reply is set only when a body is wanted, present and fits; one that does not fit is an error |
| ServerCodec.Codec.ReadRequestHeader | jsonrpc/jsonrpc-server.go:70-93 | the request's id and channel are stored under a fresh 64-bit number, and the id leaves the work space |
| ServerCodec.Codec.ReadRequestBody | jsonrpc/jsonrpc-server.go:95-109 | the argument is set only when wanted, present and fitting; missing parameters are an error of their own |
| ServerCodec.Codec.WriteResponse | jsonrpc/jsonrpc-server.go:113-138 | the answer restores id and channel of that number, carries either error or result, and the number is forgotten in both maps |
| ServerCodec.MapsInLockStep | jsonrpc/jsonrpc-server.go:84-90 | the two pending maps have the same keys after every run |
| ServerCodec.SeqCountsReads | jsonrpc/jsonrpc-server.go:84-90 | in every log the counter is the number of requests read modulo 2^64, and the next number is one more |
| ServerCodec.NumbersInOrder | jsonrpc/jsonrpc-server.go:84-90 | below 2^64 requests every pending number lies between 1 and the number of requests |
| ServerCodec.AnswersExactlyTheOutstanding | jsonrpc/jsonrpc-server.go:113-125 | in every log, WriteResponse fails exactly for a number never issued or answered since it was issued, and answering uses it up |
| ServerCodec.AnswerGoesToTheLatest | jsonrpc/jsonrpc-server.go:113-131 | the answer under a number restores the id, and the channel of the method, of the latest request given that number |
| ServerCodec.LostExactlyWhenNumberReused | jsonrpc/jsonrpc-server.go:84-87 | an unanswered request gets its own answer exactly when no later request was given its number; else it is lost |
| ServerCodec.FullTurnLosesTheFirst | jsonrpc/jsonrpc-server.go:84-87 | of 2^64 + 1 unanswered requests the first and the last share the number 1, whose answer goes to the last |
| ServerCodec.AcceptKeepsAllExactlyWhenFresh | jsonrpc/jsonrpc-server.go:84-87 | after any log, reading one more request keeps every request held exactly when its number is not that of an unanswered one |
| RpcSystem.ResponsesMatchCalls | jsonrpc/jsonrpc-client.go:93-117 | for every interleaving, a response received names a call sent, with the name it was sent under, the result or error given to that very call and the channel of its stripped method; no call is answered twice |
| RpcSystem.ResponsesAreTheAnswersInOrder | jsonrpc/jsonrpc-client.go:93-117 | the i-th response read is the i-th answer of the RPC layer, with that error or result, for the call that a Send step sent under its id |
| RpcSystem.RequestsCarryTheirCalls | jsonrpc/jsonrpc-server.go:70-93 | in every run, a request on the wire or in service is the name of a call still pending taken apart, with its parameters, none under two numbers |
| RpcSystem.PrintedCallsAreServed | client/client.go:454-461 | the method served for a printed call is `Service.Method`, and its target the shown one, exactly when the target has no `]` |
| RpcSystem.CallsAreServedInOrder | jsonrpc/jsonrpc-server.go:84-90 | below 2^64 calls, server number q is the q-th call sent, and the wire holds the latest ones in order |
| RpcSystem.SendIsRecorded | jsonrpc/jsonrpc-client.go:54-56 | every call sent is remembered as it was sent, to the end of the run |
| RpcSystem.PendingIsConserved | jsonrpc/jsonrpc-client.go:54-56 | every call sent is in exactly one of: request wire, service, response wire, received; it is pending exactly until received, and in service exactly while the server codec has its id pending |
| RpcSystem.PendingCount | jsonrpc/jsonrpc-client.go:99-102 | the number of pending calls is the number of records on the two wires and in service |
| RpcSystem.MoveDoesOneUnit | jsonrpc/jsonrpc-server.go:113-125 | each step that moves a call on lowers 3 * requests + 2 * served + responses by exactly one |
| RpcSystem.DrainingTakesExactlyItsWork | jsonrpc/jsonrpc-server.go:113-125 | without new calls a run can continue exactly for that many steps, and nothing is pending exactly then |
| RpcSystem.FewCallsNeverWrap | jsonrpc/jsonrpc-server.go:85-87 | below 2^64 calls a request on the wire can always be read under an unused number |
| RpcConnection.Carry | jsonrpc/jsonrpc-client.go:54-124 | the codec objects, driven through any run, receive exactly what the step system says, and the RPC layer is handed the method and argument of each request in service |
| HubState.RunKeepsTables | hub/hub.go:95-124 | in every run, registered clients have profiles, ids name the clients stored under them, and everyone in a session is seated |
| HubState.PeopleAreNamedAndSeated | hub/hub-session.go:27-29 | in every run, hosts and members have a name and a session and are ready, so the dereferences of these succeed |
| HubState.UnregisterTwiceIsOnce | hub/hub.go:111-123 | a second Unregister of a client changes nothing and calls nobody, whatever was done in between, unless the client registered again |
| HubObjects.Hub.Register | hub/hub.go:95-106 | the tables, the stored profiles and the call made are those of the Register step |
| HubObjects.Hub.Unregister | hub/hub.go:107-124 | closing or leaving, the tables and the calls are those of the Unregister step |
| HubObjects.Hub.Host | hub/hub-session.go:24-34 | the session table and the caller's fields are those of the Host step; an unknown caller is the nil dereference |
| HubObjects.Hub.Join | hub/hub-session.go:36-66 | membership, the caller's fields and the announcements are those of the Join step; the missing session is an error, the unknown caller a crash |
| HubObjects.Hub.TellOthers | hub/hub-session.go:53-63 | everyone in the session whose id differs is called once, a host that is also a member twice |
| HubObjects.Hub.LeaveSession | hub/hub-session.go:68-88 | the others are told and the session is not changed |
| HubObjects.Hub.CloseSession | hub/hub-session.go:90-103 | the session leaves the table and every member but the host's id is told the session it is in |
| HubObjects.Hub.Members | hub/hub-session.go:114-127 | the reply has one entry for each id in the session, named after a client with that id, the host's entry being the host's own |
| HubObjects.Hub.Handle | hub/hub.go:46-76 | the calls are the deliveries of the step and the reply comes from a client called privately, or is left alone |
| HubObjects.OneMoreTold | hub/hub-session.go:53-60 | visiting one more member adds exactly its call |
| HubObjects.Hub.CandidatesOf | hub/hub.go:57-61 | the loop collects exactly the participants that are ready and in this session, so that calling those the message addresses makes their part of the deliveries, in whatever order they come |
| HubServer.Serve | hub/hub.go:90-127 | a new hub object serving any log of operations ends in the state of the run, having made exactly the calls of its steps |
| HubDiscipline.RunIsGood | hub/hub.go:99-122 | disciplined runs: unique ids, Clients and IdClients in bijection, every session has a registered host seated in it and members seated in it that are not the host |
| HubDiscipline.UnregisterRemovesExactlyItsSession | hub/hub.go:107-122 | unregistering removes exactly the sessions the client hosts, at most one, and every other keeps its registered host |
| HubDiscipline.NoOrphansEver | hub/hub.go:107-122 | no disciplined run leaves a session without a registered host |
| HubDiscipline.NoOrphanExactlyWhenHostIsSeated | hub/hub.go:112-118 | without discipline, no orphan is left exactly when every session the client hosts is the one it is in |
| HubDiscipline.HostingTwiceOrphans | hub/hub-session.go:24-34 | a client that hosts two sessions and unregisters leaves the first behind with an unregistered host |
| HubDiscipline.DeliveredExactlyOnce | hub/hub.go:51-75 | Handle calls everyone in the session whom the message addresses once, and nobody else |
| HubDiscipline.ReplyIsTheTargets | hub/hub.go:69-73 | the reply to a private message is the answer of the one client with that id; otherwise it stays as it was |
| HubDiscipline.RosterIsExact | hub/hub-session.go:114-127 | Members lists exactly the people of the session, each under its id with its own name |
| HubHistory.RoomsAreOpen | hub/hub-session.go:24-34 | in any run the sessions in the table are those opened and not closed since, where only the host's Unregister from inside closes one |
| HubHistory.HostIsLatestOpener | hub/hub-session.go:24-34 | in any run the host of a session is the client that opened it last |
| HubHistory.MembersAreJoiners | hub/hub-session.go:36-46 | in any run the members of a session are the clients that joined it since it was last opened |
| HubHistory.SessionIsLatestEntry | hub/hub-session.go:27-29 | in any run a client's session is the one named by its latest successful Host or Join |
| HubHistory.ProfileIsFromLatestEntry | hub/hub-session.go:44-46 | that entry also gave the client its name and made it ready |
| HubHistory.CandidatesAreLatestJoiners | hub/hub.go:57-62 | Handle considers exactly the joiners whose latest entry names this session |
| HubHistory.KnownIdsAreRegistered | hub/hub.go:99-122 | in any run, the ids the hub can look up are those registered and not effectively unregistered since |
| HubHistory.CrashesExactlyForTheUnregistered | hub/hub-session.go:25-47 | in any run, Host dereferences nil exactly when its caller's id is not registered at that point, Join exactly when moreover the session exists, and no other step does |
| HubHistory.LateCallsCrash | hub/hub-session.go:25-47 | a Host or Join served after its caller was unregistered, or with an id nobody registered, does so |
| HubHistory.HostReplay | hub/hub-session.go:49-63 | disciplined runs: the host's id with the ids announced to it are the ids Members lists |
| HubHistory.ParticipantReplay | hub/hub-session.go:49-63 | disciplined runs: the ids present when a client was in the session with those announced to it since are the ids now |
| HubHistory.LeavingTellsTheOthers | hub/hub-session.go:68-88 | disciplined runs: everyone else in the session, and nobody outside it, is told once that a client left |
| HubHistory.ClosingTellsEveryJoiner | hub/hub-session.go:90-103 | disciplined runs: when a host unregisters, each client that ever joined gets one SessionClosed naming that session, and nobody else is called |
| HubHistory.ClosedForGood | hub/hub-session.go:90-93 | disciplined runs: after that the id is not in the table again, so Members and Handle on it fail |
| HubHistory.LateLeaversDisturbNobody | hub/hub.go:111-119 | disciplined runs: its former members unregister later without changing a session or calling anybody |
| HubHistory.ClosingNamesTheSessionExactlyWhenNobodyMoved | hub/hub-session.go:94-99 | without discipline, all closing calls name the closed session exactly when no member has moved on |
| HubHistory.MovedMemberIsToldTheOtherSession | hub/hub-session.go:99 | a client that joined two sessions is told the second when the first closes |
| HubCalls.JoinCalls | hub/hub-session.go:49-63 | in any run, a Join calls each other member and the host with the joiner's id, the host twice when it is a member too, and nobody else |
| HubCalls.LeaveCalls | hub/hub-session.go:68-88 | in any run, leaving a session hosted by another calls the same people with the leaver's id |
| HubCalls.CloseCalls | hub/hub-session.go:90-103 | in any run, the host's leaving tells each other member once, with the session that member is in |
| HubCalls.HandleCalls | hub/hub.go:46-76 | in any run, Handle calls the members whose latest entry names the session, and the host wherever it is, as far as addressed |
| HubCalls.QuietSteps | hub/hub.go:111-119 | in any run, Host, and Unregister of a client unknown or in no existing session, call nobody |
| HubCalls.EachIsToldItsOwnId | hub/hub.go:99-106 | over any run, a client is told its own id once for each time it registered, and never another |
| HubCalls.EveryoneKnowsItsId | hub/hub.go:99-106 | every client the hub knows was told its id, in disciplined runs an id nobody else was told |
| HubCalls.JoiningTellsTheOthers | hub/hub-session.go:49-63 | disciplined runs: everyone in the session, and nobody outside it, is told once that a client joined, and nothing else is sent |
| EndToEnd.CallReachesItsTarget | client/client.go:403-419 | for every service, method and target, the record written for a printed call makes the hub call everyone in the session but the sender when the shown target is `-1`, otherwise only the client with that id, each once, with session, sender, service, target and text as given |
| EndToEnd.CallReachesTheClient | client/client.go:403-419 | a call made for one client in the session reaches that client alone, with the method `Service.Method`, when its id is not `-1` and has no `]` |
| EndToEnd.CallReturnsTheTargetsResult | client/client.go:322-365 | the caller of a private call is given the result of the target's service for its own call, and never that service's error |
| EndToEnd.CallWithoutTargetReturnsNothing | client/client.go:419-435 | a broadcast, or a private call to an id nobody in the session has, returns neither result nor error |
| EndToEnd.HubFailuresAreReported | client/client.go:419-435 | a failure of the call to the hub is the caller's error when it is a text, and fails the service's codec when it is not |
| Framing.FrameLayout | net/kcp-socket.go:148-158 | a frame is the length modulo 2^32 in four bytes, the highest first, and the message |
| Framing.FrameRoundTrip | net/kcp-socket.go:135-158 | a frame is read back as its message exactly when the message is shorter than 2^32 bytes, else truncated |
| Framing.ReceiveReadsTheStream | net/kcp-socket.go:135-146 | the result of ReceiveUDP depends on the bytes of the stream only, not on how they are cut into chunks |
| Framing.ReceiveStopsAtBoundary | net/kcp-socket.go:135-146 | when a frame ends at a chunk boundary the reader holds nothing and the next chunk is untouched |
| Framing.LosesNothingExactlyAtBoundary | net/kcp-socket.go:136 | with chunks that fit the buffer, no byte is lost exactly when the frame ends where a chunk ends |
| Framing.FramesArriveIntact | net/kcp-socket.go:119-146 | whatever the messages and however each frame is cut, the event loop delivers them in order and drops nothing |
| Framing.IntactExactlyWhenCutWithinFrames | net/kcp-socket.go:119-146 | for a stream of frames in chunks that fit the buffer, the event loop delivers every message and drops nothing exactly when no chunk spans two frames; dropping nothing is enough to deliver all |
| Framing.RestSurvivesExactlyWhenReadDirectly | net/kcp-socket.go:136-145 | of a frame with more bytes behind it in one chunk of any size, those bytes survive exactly when the message has 4092 bytes or at least 8188 |
| Framing.MergedFramesSurviveExactlyWhenReadDirectly | net/kcp-socket.go:119-146 | so two frames in one chunk are both delivered exactly for such a first one |
| Framing.CutConversation | net/kcp-socket.go:119-146 | of a stream that ends inside a frame the whole messages before are delivered, and the error is that of a clean end exactly when nothing or just the header of the last frame arrived |
| Framing.MergedFramesLoseTheSecond | net/kcp-socket.go:136-145 | of two small frames in one chunk the second is never delivered |
| Framing.WritesOfOneFrame | net/kcp-socket.go:148-158 | SendUDP makes one write of the frame when it fits 4096 bytes, else exactly two |
| Framing.SendWritesOneFrame | net/kcp-socket.go:148-158 | SendUDP makes non-empty writes that together are exactly one frame |
| Framing.SentMessagesArrive | net/kcp-socket.go:119-158 | messages sent with SendUDP, each write cut at will, are exactly those the event loop delivers |
| Framing.ReceiveUDP | net/kcp-socket.go:135-146 | the method, filling its slices in place from a buffered reader, returns and consumes what the specification says |
| Framing.SendUDP | net/kcp-socket.go:148-158 | the method adds to the connection the writes of the specification |
| Framing.RunEventLoop | net/kcp-socket.go:119-133 | the loop delivers the messages and ends with the error of the specification |
| NetConn.Conn.Receive | net/hub-netconn.go:110-128 | one Read: the bytes returned and the whole new state |
| NetConn.StreamIsExact | net/hub-netconn.go:110-128 | in every run, bytes read followed by bytes still readable are the messages that arrived before the kill |
| NetConn.FailureIsFinal | net/hub-netconn.go:111-119 | a read fails only after all of that was delivered, and then every later read fails |
| NetConn.FailureMeansKilled | net/hub-netconn.go:111-119 | a read fails only after a kill arrived and blocks only when none has |
| NetConn.EndComesAfterTheReads | net/hub-netconn.go:110-128 | from any point of a run, a number of reads given by the lengths delivers all there is, and the next one fails exactly when a kill has arrived, else blocks |
| NetConn.ReadsAddUp | net/hub-netconn.go:110-128 | with buffers of one size, the reads that have succeeded and those that still will are together what the messages before the kill take, empty ones included |
| NetConn.MessageTakesReads | net/hub-netconn.go:114-127 | a message of L bytes takes exactly ceil(L / size) + 1 reads, the last one empty |
| Demux.ResponsesReturnOnTheirChannel | hub/hub-client.go:161-186 | in every run of a connection, each response on the wire goes to the channel its request went to, by method and by channel member |
| Demux.ClientRouteIsMeant | client/client.go:174-213 | every message but the ping goes to the service it names, or else to the client's own channel it names, and only there |
| Demux.HubRouteIsMeant | hub/hub-client.go:154-187 | the same on the hub's side |
| Demux.ResponsesReachTheirChannel | client/client.go:185-190 | in every run of a connection, a response that comes over the socket has its place in the stream of the channel its request was sent on, unless that was terminated before |
| Demux.RequestsReachTheirChannel | hub/hub-client.go:161-173 | a request has its place in the stream of the hub's channel that its method names |
| Demux.ChannelsAreIndependent | client/client.go:178-190 | each channel's connection evolves by its own part of the socket's events alone |
| Demux.StreamsAreExact | client/client.go:174-213 | for every router, interleaving and buffer sizes, what a channel has yielded and still holds is what was put into it before the first kill |
| Demux.ClientStreamsAreExact | client/client.go:174-195 | on the client that is the messages from the socket that name the channel, and those the relay emitted on it (client/client.go:435), before its terminate signal, in order |
| Demux.HubStreamsAreExact | hub/hub-client.go:154-187 | on the hub likewise |
| Demux.NothingIsLostBeforeFailure | net/hub-netconn.go:50-58 | reads on a channel fail or block only when everything routed to it so far, up to the kill, was delivered |
| Demux.ClientSocket.OnBinaryMessage | client/client.go:174-195 | a message reaches the connection of the service it names, or else of the client's own channel it names, and no other connection changes |
| Demux.HubSocket.OnBinaryMessage | hub/hub-client.go:154-187 | the same on the hub's side |
| Demux.ClientSocket.Serve | client/client.go:174-195 | the socket object and its connections follow any run, and the bytes their reads return are the run's |
| Demux.HubSocket.Serve | hub/hub-client.go:154-187 | the same on the hub's side |
| RingQueue.MaskIsModulus | utils/queue.go:11-13 | masking with a power of two less one is the remainder, for every index |
| RingQueue.RunIsCheap | utils/queue.go:35-107 | after every run the buffer is minimal or less than four times its contents, and resizing has copied at most two elements per Add and one per Remove |
| RingQueue.ResizeNeverEmpty | utils/queue.go:101-105 | resize is never reached with an empty queue |
| RingQueue.WindowGrows | utils/queue.go:56-59 | writing at the tail appends to the window and leaves nil outside it |
| RingQueue.WindowShrinks | utils/queue.go:97-101 | clearing the head drops the first element and leaves nil outside the window |
| RingQueue.Queue.Resize | utils/queue.go:35-48 | both branches keep the contents in order in a clean buffer of twice their number, copying each once |
| RingQueue.Queue.Add | utils/queue.go:51-60 | the contents gain the element at the end; shape and copies follow the cost model |
| RingQueue.Queue.Remove | utils/queue.go:93-107 | the first element is returned and removed, or the call panics exactly on an empty queue, changing nothing |
| RingQueue.Queue.Get | utils/queue.go:79-89 | indices count from the front or, when negative, from the back; anything else panics |
| RingQueue.Queue.Peek | utils/queue.go:64-69 | the first element, or a panic exactly on an empty queue |
| RingQueue.Queue.Length | utils/queue.go:29-31 | the number of elements |
| RingQueue.Queue.IsEmpty | utils/queue.go:71-73 | whether there are none |
| RingQueue.FirstInFirstOut | utils/queue.go:51-107 | in any log, the elements removed followed by the contents are the elements added, in order |
| RingQueue.Serve | utils/queue.go:20-107 | a queue object serving any log holds and hands out what the plain sequence does, within the space bound, having copied at most two elements per Add and one per Remove |

## Left out

- WebSocket, KCP, TLS, HTTP handlers, CORS, the command programs and the chat interface: input and output without a state law.
- JSON text, base64 (section 4 of RFC 4648), reflection and the rest of net/rpc: JSON values are kept as text, decoding is a parameter of the demultiplexers, and encoding and decoding are taken to be inverse.
- The signals and artifex libraries are not part of this model: an event is taken to hand its messages to its listener in order, and the unbuffered channel of a connection is an unbounded queue.
- Response matching inside a client's own message handler (client/client.go:344-349): every listener of a service sees every response, so matching holds only one request at a time.
- Interleavings inside one hub operation: Host and Join run outside the hub's mutex and announcements run in goroutines; here each operation is one step, and the calls it makes have no order.
- Closing of sockets by Unregister and CloseSession, connection flags, pings, timers and deadlines: effects outside the state machine.
- Write errors of SendUDP and connection errors other than the end of the stream.
- Removing leavers from a session: the code does not do it, so "member" means "joined", not "still connected".
- The list of sessions over HTTP (hub/hub-client.go:103-116): it reads what PeopleAreNamedAndSeated shows is there.
- Services registered while a socket is already in use: the tables of a socket are fixed during a run.
- Framing.IntactExactlyWhenCutWithinFrames: needs chunks of at most 4096 bytes; what a larger chunk loses behind one frame is given exactly by RestSurvivesExactlyWhenReadDirectly, but not composed over a whole stream.
- Integer overflow of the queue's `count << 1`: it needs 2^62 elements.
- HubObjects.Hub.CloseSession: requires that participants have a session, which RunKeepsTables proves of every reachable state; without it the code dereferences nil.
- RpcSystem.Enabled: calls use ids not used before on the connection; net/rpc numbers them so.
