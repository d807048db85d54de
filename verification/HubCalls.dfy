/** Every call the hub makes, counted: what each operation sends to whom, in terms of the log alone, and
    what that means for clients that behave. */
module HubCalls {
  import opened Common
  import opened HubState
  import opened HubDiscipline
  import opened HubHistory

  // ----- One step at a time -----

  ghost predicate IsMember(ops: seq<Op>, c: Client, session: string) {
    exists i :: JoinedSince(ops, i, c, session)
  }

  ghost predicate IsHost(ops: seq<Op>, c: Client, session: string) {
    exists i :: OpenedSince(ops, i, c, session)
  }

  /** The latest successful Host or Join of `c` names `session`. */
  ghost predicate IsIn(ops: seq<Op>, c: Client, session: string) {
    exists i :: LatestEntry(ops, i, c, session)
  }

  lemma PeopleByLog(ops: seq<Op>, session: string, c: Client)
    requires session in Run(ops).rooms
    ensures c in Run(ops).rooms[session].members <==> IsMember(ops, c, session)
    ensures c == Run(ops).rooms[session].host <==> IsHost(ops, c, session)
    ensures c in Candidates(Run(ops), session) <==> IsMember(ops, c, session) && IsIn(ops, c, session)
  {
    MembersAreJoiners(ops, session, c);
    HostIsLatestOpener(ops, session, c);
    CandidatesAreLatestJoiners(ops, session, c);
  }

  lemma OthersCount(room: Room, id: string, e: Event, note: Note)
    ensures ToOthers(room, id, e)[note]
            == if note.event == e && note.to.id != id
               then (if note.to in room.members then 1 else 0) + (if note.to == room.host then 1 else 0)
               else 0
  {
    EachCount((set c | c in room.members && c.id != id), e, note);
  }

  /** In any run, a Join of an existing session calls every other member and the host with the joiner's
      id, the host twice if it is a member too; it calls nobody else. */
  lemma JoinCalls(ops: seq<Op>, id: string, name: string, session: string, note: Note)
    requires !Crashes(Run(ops), Join(id, name, session))
    ensures Notes(Run(ops), Join(id, name, session))[note]
            == if session in Run(ops).rooms && note.event == MemberJoin(id) && note.to.id != id
               then (if IsMember(ops, note.to, session) then 1 else 0)
                    + (if IsHost(ops, note.to, session) then 1 else 0)
               else 0
  {
    if session in Run(ops).rooms {
      RunKeepsTables(ops);
      PeopleByLog(ops, session, note.to);
      OthersCount(Run(ops).rooms[session], id, MemberJoin(id), note);
    }
  }

  /** In any run, a client that unregisters while it is in a session hosted by another is announced to
      the members and the host of that session, in the same way. */
  lemma LeaveCalls(ops: seq<Op>, c: Client, session: string, note: Note)
    requires c in Run(ops).clients && IsIn(ops, c, session) && session in Run(ops).rooms && !IsHost(ops, c, session)
    ensures Notes(Run(ops), Unregister(c))[note]
            == if note.event == ParticipantLeave(c.id) && note.to.id != c.id
               then (if IsMember(ops, note.to, session) then 1 else 0)
                    + (if IsHost(ops, note.to, session) then 1 else 0)
               else 0
  {
    SessionIsLatestEntry(ops, c, session);
    PeopleByLog(ops, session, c);
    PeopleByLog(ops, session, note.to);
    OthersCount(Run(ops).rooms[session], c.id, ParticipantLeave(c.id), note);
  }

  /** In any run, a host that unregisters while it is in its session closes it: each other member is told
      once, with the session that member is in. */
  lemma CloseCalls(ops: seq<Op>, c: Client, session: string, note: Note)
    requires c in Run(ops).clients && IsIn(ops, c, session) && session in Run(ops).rooms && IsHost(ops, c, session)
    ensures Notes(Run(ops), Unregister(c))[note]
            == if IsMember(ops, note.to, session) && note.to.id != c.id
                  && note.event.SessionClosed? && IsIn(ops, note.to, note.event.session)
               then 1 else 0
  {
    SessionIsLatestEntry(ops, c, session);
    PeopleByLog(ops, session, c);
    PeopleByLog(ops, session, note.to);
    var s := Run(ops);
    var room := s.rooms[session];
    RunKeepsTables(ops);
    if note.event.SessionClosed? { SessionIsLatestEntry(ops, note.to, note.event.session); }
    ClosingCount(s, room, note);
  }

  lemma ClosingCount(s: State, room: Room, note: Note)
    requires forall c :: c in room.members ==> Attended(s, c)
    ensures ClosingNotes(s.profiles, room)[note]
            == if note.to in room.members && note.to.id != room.host.id
                  && note.event.SessionClosed? && ProfileOf(s, note.to).session == Some(note.event.session)
               then 1 else 0
  {
    var told := set c | c in room.members && c.id != room.host.id :: Note(c, ClosingEvent(s.profiles, c));
    assert note in told <==> note.to in room.members && note.to.id != room.host.id
                             && note.event == ClosingEvent(s.profiles, note.to);
  }

  /** In any run, Handle calls the members whose latest entry names the session, and the host wherever it
      is now, as far as the message addresses them. */
  lemma HandleCalls(ops: seq<Op>, m: Message, note: Note)
    ensures Notes(Run(ops), Handle(m))[note]
            == if m.session in Run(ops).rooms && note.event == Deliver(m)
                  && (if m.target.Some? then note.to.id == m.target.value else note.to.id != m.sender)
               then (if IsMember(ops, note.to, m.session) && IsIn(ops, note.to, m.session) then 1 else 0)
                    + (if IsHost(ops, note.to, m.session) then 1 else 0)
               else 0
  {
    if m.session in Run(ops).rooms {
      PeopleByLog(ops, m.session, note.to);
      EachCount((set c | c in Candidates(Run(ops), m.session) && Addressed(m, c)), Deliver(m), note);
    }
  }

  /** In any run, these operations call nobody: Host, and Unregister of a client that is not registered or
      whose session does not exist. */
  lemma QuietSteps(ops: seq<Op>, op: Op)
    requires op.Host? || (op.Unregister? && (op.client !in Run(ops).clients
                                             || forall k :: IsIn(ops, op.client, k) ==> k !in Run(ops).rooms))
    ensures Notes(Run(ops), op) == multiset{}
  {
    if op.Unregister? && CurrentRoom(Run(ops), op.client).Some? {
      SessionIsLatestEntry(ops, op.client, CurrentRoom(Run(ops), op.client).value);
    }
  }

  // ----- Each client is told its own id -----

  /** How often a client registered. */
  function Registrations(ops: seq<Op>, c: Client): nat {
    if ops == [] then 0
    else Registrations(ops[..|ops| - 1], c) + (if ops[|ops| - 1] == Register(c) then 1 else 0)
  }

  lemma StepTellsIds(s: State, op: Op, c: Client, id: string)
    ensures Notes(s, op)[Note(c, Registered(id))] == if op == Register(c) && id == c.id then 1 else 0
  {
    var note := Note(c, Registered(id));
    if !Crashes(s, op) {
      match op
      case Register(d) => assert multiset{Note(d, Registered(d.id))}[note] == if d == c && id == c.id then 1 else 0;
      case Unregister(d) => UnregisterTellsNoIds(s, d, note);
      case Join(k, _, session) =>
        if session in s.rooms { OthersCount(s.rooms[session], s.ids[k].id, MemberJoin(s.ids[k].id), note); }
      case Handle(m) =>
        if m.session in s.rooms {
          EachCount((set d | d in Candidates(s, m.session) && Addressed(m, d)), Deliver(m), note);
        }
      case Host(_, _, _) =>
    }
  }

  lemma UnregisterTellsNoIds(s: State, d: Client, note: Note)
    requires note.event.Registered?
    ensures Notes(s, Unregister(d))[note] == 0
  {
    if d in s.clients && CurrentRoom(s, d).Some? {
      var room := s.rooms[CurrentRoom(s, d).value];
      OthersCount(room, d.id, ParticipantLeave(d.id), note);
      var told := set c | c in room.members && c.id != room.host.id :: Note(c, ClosingEvent(s.profiles, c));
      assert note !in told;
    }
  }

  /** Over any run, a client is told its own id once for every time it registered, and never another. */
  lemma {:induction false} EachIsToldItsOwnId(ops: seq<Op>, c: Client, id: string)
    ensures AllNotes(ops)[Note(c, Registered(id))] == if id == c.id then Registrations(ops, c) else 0
  {
    if ops != [] {
      var before, op := ops[..|ops| - 1], ops[|ops| - 1];
      EachIsToldItsOwnId(before, c, id);
      StepTellsIds(Run(before), op, c, id);
    }
  }

  /** So everyone the hub knows was told its id, which in a disciplined run is nobody else's. */
  lemma EveryoneKnowsItsId(ops: seq<Op>, c: Client)
    requires c in Run(ops).profiles
    ensures Note(c, Registered(c.id)) in AllNotes(ops)
    ensures Disciplined(ops) ==>
              forall d :: d in Run(ops).profiles && Note(d, Registered(c.id)) in AllNotes(ops) ==> d == c
  {
    KnownMeansRegistered(ops, c);
    EachIsToldItsOwnId(ops, c, c.id);
    if Disciplined(ops) {
      RunIsGood(ops);
      forall d | d in Run(ops).profiles && Note(d, Registered(c.id)) in AllNotes(ops) ensures d == c {
        EachIsToldItsOwnId(ops, d, c.id);
      }
    }
  }

  lemma {:induction false} KnownMeansRegistered(ops: seq<Op>, c: Client)
    ensures c in Run(ops).profiles <==> Registrations(ops, c) > 0
  {
    if ops != [] {
      var before, op := ops[..|ops| - 1], ops[|ops| - 1];
      RunKeepsTables(before);
      KnownMeansRegistered(before, c);
    }
  }

  // ----- Joining, with well-behaved clients -----

  /** Everyone in the session, and nobody outside it, is told once that a client joined; nothing else is
      sent. */
  lemma JoiningTellsTheOthers(ops: seq<Op>, id: string, name: string, session: string, note: Note)
    requires Disciplined(ops) && Allowed(Run(ops), Hosted(ops), Join(id, name, session))
    ensures Notes(Run(ops), Join(id, name, session))[note]
            == if note.event == MemberJoin(id) && InRoom(Run(ops), session, note.to) then 1 else 0
  {
    if session in Run(ops).rooms {
      var s := Run(ops);
      RunIsGood(ops);
      assert InOrder(s, session, s.rooms[session]);
      OthersCount(s.rooms[session], id, MemberJoin(id), note);
    }
  }
}
