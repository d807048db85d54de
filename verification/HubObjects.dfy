/** The hub and its session manager as objects that update their tables in place (hub/hub.go,
    hub/hub-session.go). The two are always created together and point at each other, so they are
    one class here. Remote calls are added to `outbox`, without their order: most are made concurrently. */
module HubObjects {
  import opened Common
  import opened HubState

  class Session {
    const id: string
    const host: Client
    var participants: set<Client>

    constructor (id: string, host: Client)
      ensures this.id == id && this.host == host && participants == {}
    {
      this.id, this.host, participants := id, host, {};
    }
  }

  /** The calls made once all but `rest` have been visited. */
  ghost function Told(all: set<Client>, rest: set<Client>, id: string, e: Event): multiset<Note> {
    ToEach((set c | c in all - rest && c.id != id), e)
  }

  lemma OneMoreTold(all: set<Client>, rest: set<Client>, next: Client, id: string, e: Event)
    requires rest <= all && next in rest
    ensures Told(all, rest - {next}, id, e)
            == Told(all, rest, id, e) + ToOneUnless(next.id == id, next, e)
  {
    var before := set c | c in all - rest && c.id != id :: Note(c, e);
    var after := set c | c in all - (rest - {next}) && c.id != id :: Note(c, e);
    if next.id != id {
      assert after == before + {Note(next, e)} && Note(next, e) !in before;
    } else {
      assert after == before;
    }
  }

  lemma AllTold(room: Room, id: string, e: Event)
    ensures Told(room.members, room.members, id, e) == multiset{}
    ensures Told(room.members, {}, id, e) + ToOneUnless(room.host.id == id, room.host, e) == ToOthers(room, id, e)
  {
    assert room.members - room.members == {};
    assert room.members - {} == room.members;
  }

  ghost function ToldClosed(profiles: map<Client, Profile>, room: Room, rest: set<Client>): multiset<Note> {
    multiset(set c | c in room.members - rest && c.id != room.host.id :: Note(c, ClosingEvent(profiles, c)))
  }

  lemma OneMoreClosed(profiles: map<Client, Profile>, room: Room, rest: set<Client>, next: Client)
    requires rest <= room.members && next in rest
    ensures var note := Note(next, ClosingEvent(profiles, next));
            ToldClosed(profiles, room, rest - {next})
            == ToldClosed(profiles, room, rest) + (if next.id != room.host.id then multiset{note} else multiset{})
  {
    var note := Note(next, ClosingEvent(profiles, next));
    var before := set c | c in room.members - rest && c.id != room.host.id :: Note(c, ClosingEvent(profiles, c));
    var after :=
      set c | c in room.members - (rest - {next}) && c.id != room.host.id :: Note(c, ClosingEvent(profiles, c));
    if next.id != room.host.id {
      assert after == before + {note} && note !in before;
    } else {
      assert after == before;
    }
  }

  lemma AllClosed(profiles: map<Client, Profile>, room: Room)
    ensures ToldClosed(profiles, room, room.members) == multiset{}
    ensures ToldClosed(profiles, room, {}) == ClosingNotes(profiles, room)
  {
    assert room.members - room.members == {};
    assert room.members - {} == room.members;
  }

  lemma JoinerIsNotTold(room: Room, joiner: Client)
    ensures ToOthers(room.(members := room.members + {joiner}), joiner.id, MemberJoin(joiner.id))
            == ToOthers(room, joiner.id, MemberJoin(joiner.id))
  {
    assert (set c | c in room.members + {joiner} && c.id != joiner.id)
           == (set c | c in room.members && c.id != joiner.id);
  }

  /** The calls made by Handle after visiting the clients of `visited`. */
  ghost function CallsTo(visited: seq<Client>, m: Message): multiset<Note> {
    if visited == [] then multiset{}
    else
      var n := |visited| - 1;
      CallsTo(visited[..n], m) + ToOneUnless(!Addressed(m, visited[n]), visited[n], Deliver(m))
  }

  ghost predicate IsReplyOf(visited: seq<Client>, m: Message, answer: Client -> string, before: string, after: string) {
    if m.target.Some? && exists c :: c in visited && c.id == m.target.value then
      exists c :: c in visited && c.id == m.target.value && after == answer(c)
    else after == before
  }

  lemma OneMoreCall(all: seq<Client>, i: nat, m: Message)
    requires i < |all|
    ensures CallsTo(all[..i + 1], m)
            == CallsTo(all[..i], m) + (if Addressed(m, all[i]) then multiset{Note(all[i], Deliver(m))} else multiset{})
  {
    assert all[..i + 1][..i] == all[..i];
  }

  lemma OneMoreReply(all: seq<Client>, i: nat, m: Message, answer: Client -> string, before: string, text: string)
    requires i < |all| && IsReplyOf(all[..i], m, answer, before, text)
    ensures IsReplyOf(all[..i + 1], m, answer, before,
              if m.target.Some? && all[i].id == m.target.value then answer(all[i]) else text)
  {
    assert all[..i + 1] == all[..i] + [all[i]];
  }

  /** One more candidate adds its call, if it is addressed. */
  lemma OneMoreCandidate(seen: set<Client>, next: Client, candidates: seq<Client>, m: Message)
    requires next !in seen && CallsTo(candidates, m) == ToAddressed(seen, m)
    ensures CallsTo(candidates + [next], m) == ToAddressed(seen + {next}, m)
  {
    SnocCall(candidates, next, m);
    AddressedGrows(seen, next, m);
  }

  lemma SnocCall(candidates: seq<Client>, next: Client, m: Message)
    ensures CallsTo(candidates + [next], m)
            == CallsTo(candidates, m) + (if Addressed(m, next) then multiset{Note(next, Deliver(m))} else multiset{})
  {
    assert (candidates + [next])[..|candidates|] == candidates;
  }

  lemma AddressedGrows(seen: set<Client>, next: Client, m: Message)
    requires next !in seen
    ensures ToAddressed(seen + {next}, m)
            == ToAddressed(seen, m) + (if Addressed(m, next) then multiset{Note(next, Deliver(m))} else multiset{})
  {
    var note := Note(next, Deliver(m));
    var before := set c | c in seen && Addressed(m, c) :: Note(c, Deliver(m));
    var after := set c | c in seen + {next} && Addressed(m, c) :: Note(c, Deliver(m));
    if Addressed(m, next) {
      assert after == before + {note} && note !in before;
    } else {
      assert after == before;
    }
  }

  ghost function ToAddressed(cs: set<Client>, m: Message): multiset<Note> {
    ToEach((set c | c in cs && Addressed(m, c)), Deliver(m))
  }

  lemma CallsAreDeliveries(s: State, m: Message, candidates: seq<Client>)
    requires m.session in s.rooms && CallsTo(candidates, m) == ToAddressed(Candidates(s, m.session), m)
    ensures CallsTo(candidates + [s.rooms[m.session].host], m) == Deliveries(s, m)
  {
    SnocCall(candidates, s.rooms[m.session].host, m);
  }

  lemma ReplyIsFromCalled(s: State, m: Message, candidates: seq<Client>, answer: Client -> string,
                          before: string, text: string)
    requires m.session in s.rooms && forall c :: c in candidates <==> c in Candidates(s, m.session)
    requires IsReplyOf(candidates + [s.rooms[m.session].host], m, answer, before, text)
    ensures IsReply(s, m, answer, before, text)
  {
  }

  lemma Regroup(a: multiset<Note>, b: multiset<Note>, c: multiset<Note>)
    ensures (a + b) + c == a + (b + c)
  {
  }

  /** What a call reports to its caller. */
  datatype Outcome<+T> = Done(value: T) | NotFound | Invalid | Crashed

  const WELCOME := "Welcome to the party "

  class Hub {
    var clients: set<Client>
    var idClients: map<string, Client>
    var sessions: map<string, Session>
    var outbox: multiset<Note>
    ghost var rooms: map<string, Room>          // what the session objects hold
    ghost var profiles: map<Client, Profile>    // what the objects of all clients ever registered hold

    ghost predicate Valid()
      reads this`clients, this`idClients, this`sessions, this`rooms, this`profiles, sessions.Values, profiles.Keys
    {
      && sessions.Keys == rooms.Keys && (forall k :: k in sessions ==> RoomShown(k))
      && (forall c :: c in profiles ==> profiles[c] == Profile(c.session, c.name, c.ready))
      && clients <= profiles.Keys
      && (forall k :: k in idClients ==> idClients[k] in profiles)
    }

    ghost predicate RoomShown(k: string)
      requires k in sessions && k in rooms
      reads this`sessions, this`rooms, this`profiles, sessions.Values
    {
      && sessions[k].id == k && rooms[k] == Room(sessions[k].host, sessions[k].participants)
      && sessions[k].host in profiles && sessions[k].participants <= profiles.Keys
    }

    ghost function View(): State
      reads this`clients, this`idClients, this`rooms, this`profiles
    {
      State(clients, idClients, rooms, profiles)
    }

    constructor ()
      ensures Valid() && View() == EMPTY && outbox == multiset{} && sessions == map[]
    {
      clients, idClients, sessions, outbox := {}, map[], map[], multiset{};
      rooms, profiles := map[], map[];
    }

    method Record(client: Client)
      requires Valid() && (client !in profiles ==> client.session == None && client.name == None && !client.ready)
      modifies this`clients, this`idClients, this`profiles
      ensures Valid() && View() == AfterRegister(old(View()), client)
    {
      clients := clients + {client};
      idClients := idClients[client.id := client];
      profiles := profiles[client := Profile(client.session, client.name, client.ready)];
    }

    /** A client registers as it was created: no name, no session. */
    method Register(client: Client)
      requires Valid() && (client !in profiles ==> client.session == None && client.name == None && !client.ready)
      modifies this`clients, this`idClients, this`profiles, this`outbox
      ensures Valid() && View() == Step(old(View()), Op.Register(client))
      ensures outbox == old(outbox) + Notes(old(View()), Op.Register(client))
    {
      Record(client);
      Call(client, Registered(client.id));
    }

    /** The fields Host and Join set on the caller. */
    method Seat(client: Client, name: string, session: string)
      requires Valid() && client in profiles
      modifies client, this`profiles
      ensures Valid() && profiles == old(profiles)[client := Profile(Some(session), Some(name), true)]
      ensures profiles.Keys == old(profiles.Keys)
    {
      client.name := Some(name);
      client.session := Some(session);
      client.ready := true;
      profiles := profiles[client := Profile(Some(session), Some(name), true)];
    }

    method Open(client: Client, name: string, session: string)
      requires Valid() && client in profiles
      modifies this`sessions, this`rooms, this`profiles, client
      ensures Valid() && View() == AfterHost(old(View()), client, name, session)
      ensures profiles.Keys == old(profiles.Keys)
      ensures fresh(sessions.Values - old(sessions.Values))
    {
      var room := new Session(session, client);
      sessions := sessions[session := room];
      rooms := rooms[session := Room(client, {})];
      Seat(client, name, session);
    }

    method Host(id: string, name: string, session: string) returns (reply: Outcome<string>)
      requires Valid()
      modifies this`sessions, this`rooms, this`profiles, if id in idClients then {idClients[id]} else {}
      ensures Valid() && View() == Step(old(View()), Op.Host(id, name, session))
      ensures outbox == old(outbox) + Notes(old(View()), Op.Host(id, name, session))
      ensures profiles.Keys == old(profiles.Keys)
      ensures reply == if Crashes(old(View()), Op.Host(id, name, session)) then Crashed
                       else Done("Welcome to the party " + name)
      ensures fresh(sessions.Values - old(sessions.Values))
    {
      if id !in idClients {
        return Crashed;
      }
      Open(idClients[id], name, session);
      return Done(WELCOME + name);
    }

    /** One remote call. */
    method Call(to: Client, e: Event)
      modifies this`outbox
      ensures outbox == old(outbox) + multiset{Note(to, e)}
    {
      outbox := outbox + multiset{Note(to, e)};
    }

    method CallUnless(skip: bool, to: Client, e: Event)
      modifies this`outbox
      ensures outbox == old(outbox) + ToOneUnless(skip, to, e)
    {
      if skip {
        return;
      }
      Call(to, e);
    }

    /** The calls to everyone else in a session, made by Join and LeaveSession. */
    method TellOthers(room: Session, id: string, e: Event)
      modifies this`outbox
      ensures outbox == old(outbox) + ToOthers(Room(room.host, room.participants), id, e)
    {
      var rest := room.participants;
      AllTold(Room(room.host, room.participants), id, e);
      while rest != {}
        invariant rest <= room.participants
        invariant outbox == old(outbox) + Told(room.participants, rest, id, e)
        decreases |rest|
      {
        var next :| next in rest;
        OneMoreTold(room.participants, rest, next, id, e);
        Regroup(old(outbox), Told(room.participants, rest, id, e), ToOneUnless(next.id == id, next, e));
        CallUnless(next.id == id, next, e);
        rest := rest - {next};
      }
      Regroup(old(outbox), Told(room.participants, {}, id, e), ToOneUnless(room.host.id == id, room.host, e));
      CallUnless(room.host.id == id, room.host, e);
    }

    method Admit(client: Client, session: string)
      requires Valid() && client in profiles && session in sessions
      modifies sessions[session], this`rooms
      ensures Valid()
      ensures rooms == old(rooms)[session := old(rooms)[session].(members := old(rooms)[session].members + {client})]
    {
      var room := sessions[session];
      assert RoomShown(session);
      forall k | k in sessions && k != session ensures sessions[k] != room {
        assert RoomShown(k);
      }
      room.participants := room.participants + {client};
      rooms := rooms[session := Room(room.host, room.participants)];
    }

    method Enter(client: Client, name: string, session: string)
      requires Valid() && client in profiles && session in sessions
      modifies client, sessions[session], this`rooms, this`profiles
      ensures Valid() && View() == AfterJoin(old(View()), client, name, session)
      ensures profiles.Keys == old(profiles.Keys)
    {
      Admit(client, session);
      Seat(client, name, session);
    }

    method Join(id: string, name: string, session: string) returns (reply: Outcome<string>)
      requires Valid()
      modifies this`outbox, this`rooms, this`profiles
      modifies if id in idClients then {idClients[id]} else {}, if session in sessions then {sessions[session]} else {}
      ensures Valid() && View() == Step(old(View()), Op.Join(id, name, session))
      ensures profiles.Keys == old(profiles.Keys)
      ensures outbox == old(outbox) + Notes(old(View()), Op.Join(id, name, session))
      ensures reply == if session !in old(sessions) then NotFound
                       else if id !in old(idClients) then Crashed
                       else Done("Welcome to the party " + name)
    {
      if session !in sessions {
        return NotFound;
      }
      if id !in idClients {
        return Crashed;
      }
      EnterAndTell(idClients[id], name, session);
      return Done(WELCOME + name);
    }

    method EnterAndTell(client: Client, name: string, session: string)
      requires Valid() && client in profiles && session in sessions
      modifies this`outbox, this`rooms, this`profiles, client, sessions[session]
      ensures Valid() && View() == AfterJoin(old(View()), client, name, session)
      ensures profiles.Keys == old(profiles.Keys)
      ensures outbox == old(outbox) + ToOthers(old(rooms)[session], client.id, MemberJoin(client.id))
    {
      ghost var room := rooms[session];
      Enter(client, name, session);
      TellOfJoin(client, session, room);
    }

    /** The announcement of Join: the joiner, already a member, is the one left out. */
    method TellOfJoin(client: Client, session: string, ghost before: Room)
      requires Valid() && session in sessions && rooms[session] == before.(members := before.members + {client})
      modifies this`outbox
      ensures outbox == old(outbox) + ToOthers(before, client.id, MemberJoin(client.id))
    {
      assert RoomShown(session);
      JoinerIsNotTold(before, client);
      TellOthers(sessions[session], client.id, MemberJoin(client.id));
    }

    method LeaveSession(id: string, session: string)
      modifies this`outbox
      ensures outbox == old(outbox)
              + if session in sessions
                then ToOthers(Room(sessions[session].host, sessions[session].participants), id, ParticipantLeave(id))
                else multiset{}
    {
      if session in sessions {
        TellOthers(sessions[session], id, ParticipantLeave(id));
      }
    }

    /** Every participant has a session here, as in every reachable state; CloseSession relies on it. */
    method CloseSession(session: string)
      requires Valid() && RoomsAttended(View())
      modifies this`outbox, this`sessions, this`rooms
      ensures Valid() && sessions.Values <= old(sessions.Values)
      ensures rooms == if session in old(sessions) then old(rooms) - {session} else old(rooms)
      ensures outbox == old(outbox)
              + if session in old(sessions) then ClosingNotes(profiles, old(rooms)[session]) else multiset{}
    {
      if session in sessions {
        var sess := sessions[session];
        assert RoomShown(session);
        assert forall c | c in sess.participants :: Attended(View(), c);
        TellClosed(sess);
        Delete(session);
      }
    }

    method Delete(session: string)
      requires Valid()
      modifies this`sessions, this`rooms
      ensures Valid() && rooms == old(rooms) - {session} && sessions.Values <= old(sessions.Values)
    {
      sessions := sessions - {session};
      rooms := rooms - {session};
    }

    /** SessionClosed to every member, with the session the member is in now. */
    method TellClosed(sess: Session)
      requires forall c :: c in sess.participants ==>
                 c in profiles && c.session.Some? && profiles[c].session == c.session
      modifies this`outbox
      ensures outbox == old(outbox) + ClosingNotes(profiles, Room(sess.host, sess.participants))
    {
      ghost var room := Room(sess.host, sess.participants);
      var rest := sess.participants;
      AllClosed(profiles, room);
      while rest != {}
        invariant rest <= sess.participants
        invariant outbox == old(outbox) + ToldClosed(profiles, room, rest)
        decreases |rest|
      {
        var next :| next in rest;
        OneMoreClosed(profiles, room, rest, next);
        Regroup(old(outbox), ToldClosed(profiles, room, rest), multiset{Note(next, ClosingEvent(profiles, next))});
        rest := rest - {next};
        if sess.host.id != next.id {
          Call(next, SessionClosed(next.session.value));
        }
      }
    }

    /** The session part of Unregister: a host closes its session, anyone else leaves it. */
    method Depart(client: Client)
      requires Valid() && RoomsAttended(View()) && client in clients
      modifies this`outbox, this`sessions, this`rooms
      ensures Valid() && sessions.Values <= old(sessions.Values)
      ensures View() == old(View()).(rooms := AfterUnregister(old(View()), client).rooms)
      ensures outbox == old(outbox) + Notes(old(View()), Op.Unregister(client))
    {
      if client.session.Some? && client.session.value in sessions {
        var session := client.session.value;
        if sessions[session].host == client {
          CloseSession(session);
        } else {
          LeaveSession(client.id, session);
        }
      }
    }

    method Forget(client: Client)
      requires Valid()
      modifies this`clients, this`idClients
      ensures Valid()
      ensures View() == old(View()).(clients := old(clients) - {client}, ids := old(idClients) - {client.id})
    {
      clients := clients - {client};
      idClients := idClients - {client.id};
    }

    method Unregister(client: Client)
      requires Valid() && RoomsAttended(View())
      modifies this`outbox, this`sessions, this`rooms, this`clients, this`idClients
      ensures Valid() && View() == Step(old(View()), Op.Unregister(client))
      ensures sessions.Values <= old(sessions.Values)
      ensures outbox == old(outbox) + Notes(old(View()), Op.Unregister(client))
    {
      if client in clients {
        Depart(client);
        Forget(client);
      }
    }

    /** One entry for each id in the session; the host's entry is written last. */
    method Members(session: string) returns (reply: Outcome<Roster>)
      requires Valid()
      ensures session !in sessions ==> reply == NotFound
      ensures session in sessions ==> reply.Done? && IsRosterOf(View(), rooms[session], reply.value)
    {
      if session !in sessions {
        return NotFound;
      }
      var sess := sessions[session];
      var members := map[];
      var rest := sess.participants;
      while rest != {}
        invariant rest <= sess.participants
        invariant members.Keys == set c | c in sess.participants - rest :: c.id
        invariant forall k :: k in members ==> exists c :: c in sess.participants && c.id == k && members[k] == c.name
        decreases |rest|
      {
        var next :| next in rest;
        rest := rest - {next};
        assert sess.participants - rest == (sess.participants - (rest + {next})) + {next};
        members := members[next.id := next.name];
      }
      members := members[sess.host.id := sess.host.name];
      reply := Done(Roster(members, sess.host.id));
      NamesMatch(session, members);
    }

    lemma NamesMatch(session: string, members: map<string, Option<string>>)
      requires Valid() && session in sessions
      requires forall k :: k in members && k != sessions[session].host.id ==>
                 exists c :: c in sessions[session].participants && c.id == k && members[k] == c.name
      ensures forall k :: k in members && k != sessions[session].host.id ==>
                exists c :: c in sessions[session].participants && c.id == k && members[k] == ProfileOf(View(), c).name
    {
      forall k | k in members && k != sessions[session].host.id
        ensures exists c :: c in sessions[session].participants && c.id == k && members[k] == ProfileOf(View(), c).name
      {
        var c :| c in sessions[session].participants && c.id == k && members[k] == c.name;
        assert ProfileOf(View(), c).name == c.name;
      }
    }

    /** Broadcast or private delivery; `answer` is what each client's own handler replies. */
    method Handle(message: Option<Message>, answer: Client -> string, before: string) returns (reply: Outcome<string>)
      requires Valid()
      modifies this`outbox
      ensures message.None? ==> reply == Invalid && outbox == old(outbox)
      ensures message.Some? && message.value.session !in sessions ==> reply == NotFound && outbox == old(outbox)
      ensures message.Some? && message.value.session in sessions ==>
                && reply.Done? && IsReply(View(), message.value, answer, before, reply.value)
                && outbox == old(outbox) + Notes(View(), Op.Handle(message.value))
    {
      if message.None? {
        return Invalid;
      }
      var m := message.value;
      if m.session !in sessions {
        return NotFound;
      }
      var text := CallCandidates(m, answer, before);
      reply := Done(text);
    }

    /** The part of Handle for a session that exists. */
    method CallCandidates(m: Message, answer: Client -> string, before: string) returns (text: string)
      requires Valid() && m.session in sessions
      modifies this`outbox
      ensures IsReply(View(), m, answer, before, text) && outbox == old(outbox) + Deliveries(View(), m)
    {
      assert RoomShown(m.session);
      var candidates := CandidatesOf(sessions[m.session], m.session, m);
      CallsAreDeliveries(View(), m, candidates);
      text := Dispatch(candidates + [sessions[m.session].host], m, answer, before);
      ReplyIsFromCalled(View(), m, candidates, answer, before, text);
    }

    /** The calls to the candidates, in order; the last private reply wins. */
    method Dispatch(candidates: seq<Client>, m: Message, answer: Client -> string, before: string)
        returns (text: string)
      modifies this`outbox
      ensures outbox == old(outbox) + CallsTo(candidates, m)
      ensures IsReplyOf(candidates, m, answer, before, text)
    {
      text := before;
      var privateMessage := m.target.Some?;
      for i := 0 to |candidates|
        invariant outbox == old(outbox) + CallsTo(candidates[..i], m)
        invariant IsReplyOf(candidates[..i], m, answer, before, text)
      {
        var client := candidates[i];
        OneMoreCall(candidates, i, m);
        OneMoreReply(candidates, i, m, answer, before, text);
        if !privateMessage && client.id != m.sender {
          Call(client, Deliver(m));
          continue;
        }
        if privateMessage && client.id == m.target.value {
          Call(client, Deliver(m));
          text := answer(client);
        }
      }
      assert candidates[..|candidates|] == candidates;
    }

    /** The participants that are ready and still in this session, in some order. */
    method CandidatesOf(sess: Session, session: string, ghost m: Message) returns (candidates: seq<Client>)
      requires Valid() && session in sessions && sessions[session] == sess
      ensures forall c :: c in candidates <==> c in Candidates(View(), session)
      ensures CallsTo(candidates, m) == ToAddressed(Candidates(View(), session), m)
    {
      candidates := [];
      ghost var all := Candidates(View(), session);
      var rest := sess.participants;
      assert RoomShown(session);
      assert all - rest == {} && ToAddressed({}, m) == multiset{} by {
        assert (set c | c in {} && Addressed(m, c)) == {};
      }
      while rest != {}
        invariant rest <= sess.participants
        invariant forall c :: c in candidates <==> c in all - rest
        invariant CallsTo(candidates, m) == ToAddressed(all - rest, m)
        decreases |rest|
      {
        var next :| next in rest;
        assert profiles[next] == Profile(next.session, next.name, next.ready);
        if next.ready && next.session.Some? && next.session.value == session {
          OneMoreCandidate(all - rest, next, candidates, m);
          candidates := candidates + [next];
          assert all - (rest - {next}) == (all - rest) + {next};
        } else {
          assert all - (rest - {next}) == all - rest;
        }
        rest := rest - {next};
      }
      assert all - rest == all;
    }
  }
}
