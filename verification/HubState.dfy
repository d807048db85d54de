/** The hub as a state machine: what Register, Unregister, Host, Join and Handle do to the client
    tables, the sessions and the clients, and the calls they make on other clients. Each operation
    is one atomic step. */
module HubState {
  import opened Common

  /** A connected client. Its identity is the object; the id is a uuid given at creation. */
  class Client {
    const id: string
    var session: Option<string>
    var name: Option<string>
    var ready: bool

    constructor (id: string)
      ensures this.id == id && session == None && name == None && !ready
    {
      this.id, session, name, ready := id, None, None, false;
    }
  }

  datatype Message = Message(session: string, sender: string, channel: string, target: Option<string>, text: string)

  /** A remote call made on a client. */
  datatype Event =
    | Registered(id: string)
    | MemberJoin(id: string)
    | ParticipantLeave(id: string)
    | SessionClosed(session: string)
    | Deliver(message: Message)

  datatype Note = Note(to: Client, event: Event)

  datatype Profile = Profile(session: Option<string>, name: Option<string>, ready: bool)

  const NEWCOMER := Profile(None, None, false)

  /** A session: its host and the clients that joined it. Nobody is ever taken out of it. */
  datatype Room = Room(host: Client, members: set<Client>)

  datatype State = State(
    clients: set<Client>, ids: map<string, Client>, rooms: map<string, Room>, profiles: map<Client, Profile>)

  const EMPTY := State({}, map[], map[], map[])

  datatype Op =
    | Register(client: Client)
    | Unregister(client: Client)
    | Host(id: string, name: string, session: string)
    | Join(id: string, name: string, session: string)
    | Handle(message: Message)

  function ProfileOf(s: State, c: Client): Profile {
    if c in s.profiles then s.profiles[c] else NEWCOMER
  }

  /** The session a client is in, when that session is still in the table. */
  function CurrentRoom(s: State, c: Client): Option<string> {
    var session := ProfileOf(s, c).session;
    if session.Some? && session.value in s.rooms then session else None
  }

  // ----- Steps -----

  /** Host and Join dereference the client found under the caller's id. */
  predicate Crashes(s: State, op: Op) {
    match op
    case Host(id, _, _) => id !in s.ids
    case Join(id, _, session) => session in s.rooms && id !in s.ids
    case _ => false
  }

  function AfterRegister(s: State, c: Client): State {
    s.(clients := s.clients + {c}, ids := s.ids[c.id := c], profiles := s.profiles[c := ProfileOf(s, c)])
  }

  predicate ClosesRoom(s: State, c: Client) {
    c in s.clients && CurrentRoom(s, c).Some? && s.rooms[CurrentRoom(s, c).value].host == c
  }

  function AfterUnregister(s: State, c: Client): State {
    if c !in s.clients then s
    else
      s.(clients := s.clients - {c}, ids := s.ids - {c.id},
         rooms := if ClosesRoom(s, c) then s.rooms - {CurrentRoom(s, c).value} else s.rooms)
  }

  function AfterHost(s: State, c: Client, name: string, session: string): State {
    s.(rooms := s.rooms[session := Room(c, {})], profiles := s.profiles[c := Profile(Some(session), Some(name), true)])
  }

  function AfterJoin(s: State, c: Client, name: string, session: string): State {
    if session !in s.rooms then s
    else
      var room := s.rooms[session];
      s.(rooms := s.rooms[session := room.(members := room.members + {c})],
         profiles := s.profiles[c := Profile(Some(session), Some(name), true)])
  }

  /** A crash ends the process, so nothing follows it; here it leaves the state as it was. */
  function Step(s: State, op: Op): State {
    if Crashes(s, op) then s
    else
      match op
      case Register(c) => AfterRegister(s, c)
      case Unregister(c) => AfterUnregister(s, c)
      case Host(id, name, session) => AfterHost(s, s.ids[id], name, session)
      case Join(id, name, session) => if session in s.rooms then AfterJoin(s, s.ids[id], name, session) else s
      case Handle(_) => s
  }

  // ----- The calls made by a step -----

  function ToEach(cs: set<Client>, e: Event): multiset<Note> {
    multiset(set c | c in cs :: Note(c, e))
  }

  function ToOneUnless(skip: bool, to: Client, e: Event): multiset<Note> {
    if skip then multiset{} else multiset{Note(to, e)}
  }

  /** Everyone in the room whose id differs; a host that is also a member is called twice. */
  function ToOthers(room: Room, id: string, e: Event): multiset<Note> {
    ToEach((set c | c in room.members && c.id != id), e) + ToOneUnless(room.host.id == id, room.host, e)
  }

  /** Each member is told the session it is in at that moment. */
  function ClosingEvent(profiles: map<Client, Profile>, c: Client): Event {
    SessionClosed(if c in profiles && profiles[c].session.Some? then profiles[c].session.value else "")
  }

  function ClosingNotes(profiles: map<Client, Profile>, room: Room): multiset<Note> {
    multiset(set c | c in room.members && c.id != room.host.id :: Note(c, ClosingEvent(profiles, c)))
  }

  /** The members Handle considers, besides the host. */
  function Candidates(s: State, session: string): set<Client>
    requires session in s.rooms
  {
    set c | c in s.rooms[session].members && ProfileOf(s, c).ready && ProfileOf(s, c).session == Some(session)
  }

  /** A broadcast goes to everyone but the sender, a private message to those with the target's id. */
  predicate Addressed(m: Message, c: Client) {
    if m.target.Some? then c.id == m.target.value else c.id != m.sender
  }

  function Deliveries(s: State, m: Message): multiset<Note> {
    if m.session !in s.rooms then multiset{}
    else
      var host := s.rooms[m.session].host;
      ToEach((set c | c in Candidates(s, m.session) && Addressed(m, c)), Deliver(m))
      + ToOneUnless(!Addressed(m, host), host, Deliver(m))
  }

  function Notes(s: State, op: Op): multiset<Note> {
    if Crashes(s, op) then multiset{}
    else
      match op
      case Register(c) => multiset{Note(c, Registered(c.id))}
      case Unregister(c) =>
        if c !in s.clients || CurrentRoom(s, c).None? then multiset{}
        else
          var room := s.rooms[CurrentRoom(s, c).value];
          if room.host == c then ClosingNotes(s.profiles, room) else ToOthers(room, c.id, ParticipantLeave(c.id))
      case Host(_, _, _) => multiset{}
      case Join(id, _, session) =>
        if session in s.rooms then ToOthers(s.rooms[session], s.ids[id].id, MemberJoin(s.ids[id].id)) else multiset{}
      case Handle(m) => Deliveries(s, m)
  }

  lemma EachCount(cs: set<Client>, e: Event, note: Note)
    ensures ToEach(cs, e)[note] == if note.event == e && note.to in cs then 1 else 0
  {
    assert note in (set c | c in cs :: Note(c, e)) <==> note.event == e && note.to in cs;
  }

  // ----- Members -----

  datatype Roster = Roster(members: map<string, Option<string>>, host: string)

  function PeopleIds(room: Room): set<string> {
    (set c | c in room.members :: c.id) + {room.host.id}
  }

  /** What Members may answer for a room: one entry for each id in it, with the name of a client
      that has this id, and the host's own name under the host's id. */
  ghost predicate IsRosterOf(s: State, room: Room, roster: Roster) {
    && roster.host == room.host.id
    && roster.members.Keys == PeopleIds(room)
    && roster.members[room.host.id] == ProfileOf(s, room.host).name
    && forall id :: id in roster.members && id != room.host.id ==>
         exists c :: c in room.members && c.id == id && roster.members[id] == ProfileOf(s, c).name
  }

  /** What Handle may leave in the reply: the answer of a client it called privately, or what was
      there before when it called none. */
  ghost predicate IsReply(s: State, m: Message, answer: Client -> string, before: string, after: string)
    requires m.session in s.rooms
  {
    var called := Candidates(s, m.session) + {s.rooms[m.session].host};
    if m.target.Some? && exists c :: c in called && c.id == m.target.value then
      exists c :: c in called && c.id == m.target.value && after == answer(c)
    else after == before
  }

  // ----- Runs, and what holds without any discipline -----

  function Run(ops: seq<Op>): State {
    if ops == [] then EMPTY else Step(Run(ops[..|ops| - 1]), ops[|ops| - 1])
  }

  /** All the calls made by a run. */
  ghost function AllNotes(ops: seq<Op>): multiset<Note> {
    if ops == [] then multiset{}
    else AllNotes(ops[..|ops| - 1]) + Notes(Run(ops[..|ops| - 1]), ops[|ops| - 1])
  }

  predicate Attended(s: State, c: Client) {
    c in s.profiles && s.profiles[c].session.Some? && s.profiles[c].name.Some? && s.profiles[c].ready
  }

  predicate TablesAgree(s: State) {
    s.clients <= s.profiles.Keys && forall k :: k in s.ids ==> s.ids[k].id == k && s.ids[k] in s.profiles
  }

  predicate RoomsAttended(s: State) {
    forall k :: k in s.rooms ==>
      Attended(s, s.rooms[k].host) && forall c :: c in s.rooms[k].members ==> Attended(s, c)
  }

  lemma HostKeepsTables(s: State, c: Client, name: string, session: string)
    requires TablesAgree(s) && RoomsAttended(s) && c in s.profiles
    ensures var s' := AfterHost(s, c, name, session); TablesAgree(s') && RoomsAttended(s')
  {
    var s' := AfterHost(s, c, name, session);
    forall d | Attended(s, d) ensures Attended(s', d) {}
  }

  lemma JoinKeepsTables(s: State, c: Client, name: string, session: string)
    requires TablesAgree(s) && RoomsAttended(s) && c in s.profiles
    ensures var s' := AfterJoin(s, c, name, session); TablesAgree(s') && RoomsAttended(s')
  {
    var s' := AfterJoin(s, c, name, session);
    forall d | Attended(s, d) ensures Attended(s', d) {}
  }

  lemma StepKeepsTables(s: State, op: Op)
    requires TablesAgree(s) && RoomsAttended(s)
    ensures TablesAgree(Step(s, op)) && RoomsAttended(Step(s, op))
  {
    if !Crashes(s, op) {
      match op
      case Host(id, name, session) => HostKeepsTables(s, s.ids[id], name, session);
      case Join(id, name, session) => if session in s.rooms { JoinKeepsTables(s, s.ids[id], name, session); }
      case Register(c) => var s' := AfterRegister(s, c); forall d | Attended(s, d) ensures Attended(s', d) {}
      case _ =>
    }
  }

  lemma {:induction false} RunKeepsTables(ops: seq<Op>)
    ensures TablesAgree(Run(ops)) && RoomsAttended(Run(ops))
  {
    if ops != [] {
      RunKeepsTables(ops[..|ops| - 1]);
      StepKeepsTables(Run(ops[..|ops| - 1]), ops[|ops| - 1]);
    }
  }

  /** In every reachable state, each host and each member has a name and a session and is ready, so
      no dereference in Members' callers, the session list or CloseSession fails. */
  lemma {:induction false} PeopleAreNamedAndSeated(ops: seq<Op>, session: string, c: Client)
    requires session in Run(ops).rooms
    requires c == Run(ops).rooms[session].host || c in Run(ops).rooms[session].members
    ensures ProfileOf(Run(ops), c).name.Some? && ProfileOf(Run(ops), c).session.Some? && ProfileOf(Run(ops), c).ready
  {
    RunKeepsTables(ops);
    assert Attended(Run(ops), c);
  }

  /** Once unregistered, a client stays out until it registers again. */
  lemma {:induction false} StaysUnregistered(ops: seq<Op>, k: nat, c: Client)
    requires k < |ops| && ops[k] == Unregister(c) && forall j :: k < j < |ops| ==> ops[j] != Register(c)
    ensures c !in Run(ops).clients
    decreases |ops|
  {
    var before, op := ops[..|ops| - 1], ops[|ops| - 1];
    if k < |before| {
      assert before[k] == ops[k];
      StaysUnregistered(before, k, c);
    } else {
      assert c !in AfterUnregister(Run(before), c).clients;
    }
  }

  /** A second Unregister of a client changes nothing and calls nobody, whatever was done in between,
      unless the client registered again. */
  lemma UnregisterTwiceIsOnce(ops: seq<Op>, k: nat, c: Client)
    requires k < |ops| && ops[k] == Unregister(c) && forall j :: k < j < |ops| ==> ops[j] != Register(c)
    ensures Step(Run(ops), Unregister(c)) == Run(ops) && Notes(Run(ops), Unregister(c)) == multiset{}
  {
    StaysUnregistered(ops, k, c);
  }
}
