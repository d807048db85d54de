/** What the hub guarantees to clients that behave as the bundled client does: ids are unique, only
    registered clients call Host and Join, each client enters a session at most once, and each Host
    uses a session id never hosted before. */
module HubDiscipline {
  import opened Common
  import opened HubState

  /** The session ids hosted so far. */
  function Hosted(ops: seq<Op>): set<string> {
    if ops == [] then {}
    else
      var op := ops[|ops| - 1];
      Hosted(ops[..|ops| - 1]) + (if op.Host? then {op.session} else {})
  }

  predicate Newcomer(s: State, id: string) {
    id in s.ids && ProfileOf(s, s.ids[id]).session == None
  }

  predicate Allowed(s: State, hosted: set<string>, op: Op) {
    match op
    case Register(c) => forall d :: d in s.profiles && d.id == c.id ==> d == c
    case Host(id, _, session) => Newcomer(s, id) && session !in hosted
    case Join(id, _, session) => session in s.rooms ==> Newcomer(s, id)
    case _ => true
  }

  predicate Disciplined(ops: seq<Op>) {
    ops == [] ||
    var before := ops[..|ops| - 1];
    Disciplined(before) && Allowed(Run(before), Hosted(before), ops[|ops| - 1])
  }

  lemma {:induction false} PrefixIsDisciplined(ops: seq<Op>, k: nat)
    requires Disciplined(ops) && k <= |ops|
    ensures Disciplined(ops[..k])
    decreases |ops|
  {
    if k < |ops| {
      PrefixIsDisciplined(ops[..|ops| - 1], k);
      assert ops[..|ops| - 1][..k] == ops[..k];
    } else {
      assert ops[..k] == ops;
    }
  }

  // ----- The invariant -----

  predicate UniqueIds(s: State) {
    forall c, d :: c in s.profiles && d in s.profiles && c.id == d.id ==> c == d
  }

  /** Clients and IdClients describe the same clients. */
  predicate TablesMatch(s: State) {
    && s.clients <= s.profiles.Keys
    && (forall c :: c in s.clients ==> c.id in s.ids && s.ids[c.id] == c)
    && (forall k :: k in s.ids ==> s.ids[k].id == k && s.ids[k] in s.clients)
  }

  predicate Seated(s: State, c: Client, session: string) {
    c in s.profiles && s.profiles[c].session == Some(session) && s.profiles[c].name.Some? && s.profiles[c].ready
  }

  predicate InOrder(s: State, session: string, room: Room) {
    && room.host in s.clients && Seated(s, room.host, session) && room.host !in room.members
    && forall c :: c in room.members ==> Seated(s, c, session)
  }

  predicate RoomsInOrder(s: State) {
    forall k :: k in s.rooms ==> InOrder(s, k, s.rooms[k])
  }

  predicate Good(s: State, hosted: set<string>) {
    UniqueIds(s) && TablesMatch(s) && RoomsInOrder(s) && s.rooms.Keys <= hosted
  }

  lemma RegisterKeepsGood(s: State, hosted: set<string>, c: Client)
    requires Good(s, hosted) && Allowed(s, hosted, Register(c))
    ensures Good(AfterRegister(s, c), hosted)
  {
    var s' := AfterRegister(s, c);
    forall k | k in s'.rooms ensures InOrder(s', k, s'.rooms[k]) { assert InOrder(s, k, s.rooms[k]); }
  }

  lemma UnregisterKeepsGood(s: State, hosted: set<string>, c: Client)
    requires Good(s, hosted)
    ensures Good(AfterUnregister(s, c), hosted)
  {
    var s' := AfterUnregister(s, c);
    forall k | k in s'.rooms ensures InOrder(s', k, s'.rooms[k]) { assert InOrder(s, k, s.rooms[k]); }
  }

  lemma HostKeepsGood(s: State, hosted: set<string>, c: Client, name: string, session: string)
    requires Good(s, hosted) && c in s.clients && ProfileOf(s, c).session == None && session !in hosted
    ensures Good(AfterHost(s, c, name, session), hosted + {session})
  {
    var s' := AfterHost(s, c, name, session);
    forall k | k in s.rooms ensures InOrder(s', k, s'.rooms[k]) { assert InOrder(s, k, s.rooms[k]); }
    assert InOrder(s', session, s'.rooms[session]);
  }

  lemma JoinKeepsGood(s: State, hosted: set<string>, c: Client, name: string, session: string)
    requires Good(s, hosted) && c in s.clients && ProfileOf(s, c).session == None && session in s.rooms
    ensures Good(AfterJoin(s, c, name, session), hosted)
  {
    var s' := AfterJoin(s, c, name, session);
    forall k | k in s.rooms ensures InOrder(s', k, s'.rooms[k]) { assert InOrder(s, k, s.rooms[k]); }
  }

  lemma StepKeepsGood(s: State, hosted: set<string>, op: Op)
    requires Good(s, hosted) && Allowed(s, hosted, op)
    ensures Good(Step(s, op), hosted + (if op.Host? then {op.session} else {}))
    ensures !Crashes(s, op)
  {
    match op
    case Register(c) => RegisterKeepsGood(s, hosted, c);
    case Unregister(c) => UnregisterKeepsGood(s, hosted, c);
    case Host(id, name, session) => HostKeepsGood(s, hosted, s.ids[id], name, session);
    case Join(id, name, session) =>
      if session in s.rooms { JoinKeepsGood(s, hosted, s.ids[id], name, session); }
    case Handle(_) =>
  }

  /** In every disciplined run, Clients and IdClients are in bijection, and every session
      has a registered host that is in it, and members that are in it and are not the host. */
  lemma {:induction false} RunIsGood(ops: seq<Op>)
    requires Disciplined(ops)
    ensures Good(Run(ops), Hosted(ops))
  {
    if ops != [] {
      var before := ops[..|ops| - 1];
      RunIsGood(before);
      StepKeepsGood(Run(before), Hosted(before), ops[|ops| - 1]);
    }
  }

  // ----- No orphan sessions -----

  predicate NoOrphans(s: State) {
    forall k :: k in s.rooms ==> s.rooms[k].host in s.clients
  }

  lemma HostsOneSession(s: State, j: string, k: string)
    requires RoomsInOrder(s) && j in s.rooms && k in s.rooms && s.rooms[j].host == s.rooms[k].host
    ensures j == k
  {
    assert InOrder(s, j, s.rooms[j]) && InOrder(s, k, s.rooms[k]);
  }

  /** Unregistering a client removes exactly the sessions it hosts, of which there is at most one. */
  lemma UnregisterRemovesExactlyItsSession(ops: seq<Op>, c: Client, session: string)
    requires Disciplined(ops)
    ensures var s := Run(ops); var s' := Step(s, Unregister(c));
            && (session in s'.rooms <==> session in s.rooms && s.rooms[session].host != c)
            && (session in s'.rooms ==> s'.rooms[session] == s.rooms[session] && s'.rooms[session].host in s'.clients)
    ensures var rooms := Run(ops).rooms;
            forall k :: k in rooms && session in rooms && rooms[k].host == rooms[session].host ==> k == session
  {
    RunIsGood(ops);
    var s := Run(ops);
    if session in s.rooms {
      assert InOrder(s, session, s.rooms[session]);
      forall k | k in s.rooms && s.rooms[k].host == s.rooms[session].host ensures k == session {
        HostsOneSession(s, k, session);
      }
    }
    if ClosesRoom(s, c) { assert InOrder(s, CurrentRoom(s, c).value, s.rooms[CurrentRoom(s, c).value]); }
  }

  /** No run leaves a session without a registered host. */
  lemma NoOrphansEver(ops: seq<Op>)
    requires Disciplined(ops)
    ensures NoOrphans(Run(ops))
  {
    RunIsGood(ops);
    forall k | k in Run(ops).rooms ensures Run(ops).rooms[k].host in Run(ops).clients {
      assert InOrder(Run(ops), k, Run(ops).rooms[k]);
    }
  }

  /** Without the discipline, unregistering leaves no orphan exactly when every session the client
      hosts is the one it is in now. */
  lemma NoOrphanExactlyWhenHostIsSeated(s: State, c: Client)
    requires NoOrphans(s)
    ensures NoOrphans(Step(s, Unregister(c)))
            <==> c !in s.clients || forall k :: k in s.rooms && s.rooms[k].host == c ==> CurrentRoom(s, c) == Some(k)
  {
    var s' := AfterUnregister(s, c);
    if c in s.clients {
      if k :| k in s.rooms && s.rooms[k].host == c && CurrentRoom(s, c) != Some(k) {
        assert k in s'.rooms && s'.rooms[k].host == c;
      } else {
        forall k | k in s'.rooms ensures s'.rooms[k].host in s'.clients {
          assert k in s.rooms;
        }
      }
    }
  }

  /** The failure does happen: a client that hosts twice leaves its first session behind. */
  lemma HostingTwiceOrphans(c: Client, first: string, second: string)
    requires first != second
    ensures var ops := [Register(c), Host(c.id, "a", first), Host(c.id, "a", second), Unregister(c)];
            first in Run(ops).rooms && Run(ops).rooms[first].host == c && c !in Run(ops).clients
  {
    var ops := [Register(c), Host(c.id, "a", first), Host(c.id, "a", second), Unregister(c)];
    var s0 := Step(EMPTY, ops[0]);
    var s1 := Step(s0, ops[1]);
    var s2 := Step(s1, ops[2]);
    assert ops[..1] == [ops[0]] && ops[..2] == [ops[0], ops[1]] && ops[..3] == [ops[0], ops[1], ops[2]];
    assert Run([ops[0]]) == s0 by { assert [ops[0]][..0] == []; }
    assert Run(ops[..2]) == s1 by { assert ops[..2][..1] == ops[..1]; }
    assert Run(ops[..3]) == s2 by { assert ops[..3][..2] == ops[..2]; }
    assert Run(ops) == Step(s2, ops[3]);
  }

  // ----- Handle reaches each addressee exactly once -----

  predicate InRoom(s: State, session: string, c: Client) {
    session in s.rooms && (c == s.rooms[session].host || c in s.rooms[session].members)
  }

  lemma PeopleAreCandidates(s: State, session: string)
    requires RoomsInOrder(s) && session in s.rooms
    ensures Candidates(s, session) == s.rooms[session].members
  {
    assert InOrder(s, session, s.rooms[session]);
  }

  /** Everyone in the session whom the message addresses is called once, and nobody else: for a
      broadcast that is everyone but the sender, for a private message the one with that id. */
  lemma DeliveredExactlyOnce(ops: seq<Op>, m: Message, note: Note)
    requires Disciplined(ops)
    ensures Notes(Run(ops), Handle(m))[note]
            == if InRoom(Run(ops), m.session, note.to) && note.event == Deliver(m)
                  && (if m.target.Some? then note.to.id == m.target.value else note.to.id != m.sender)
               then 1 else 0
  {
    RunIsGood(ops);
    var s := Run(ops);
    if m.session in s.rooms {
      assert InOrder(s, m.session, s.rooms[m.session]);
      PeopleAreCandidates(s, m.session);
      EachCount((set c | c in Candidates(s, m.session) && Addressed(m, c)), Deliver(m), note);
    }
  }

  /** A private message is answered by the one client in the session with that id; with no such
      client, and for a broadcast, the reply is left as it was. */
  lemma ReplyIsTheTargets(ops: seq<Op>, m: Message, answer: Client -> string, before: string, after: string)
    requires Disciplined(ops) && m.session in Run(ops).rooms && IsReply(Run(ops), m, answer, before, after)
    ensures forall c :: InRoom(Run(ops), m.session, c) && m.target == Some(c.id) ==> after == answer(c)
    ensures (forall c :: InRoom(Run(ops), m.session, c) ==> m.target != Some(c.id)) ==> after == before
  {
    RunIsGood(ops);
    var s := Run(ops);
    assert InOrder(s, m.session, s.rooms[m.session]);
    PeopleAreCandidates(s, m.session);
    var called := Candidates(s, m.session) + {s.rooms[m.session].host};
    assert forall c :: InRoom(s, m.session, c) <==> c in called;
    assert forall c | c in called :: c in s.profiles;
  }

  /** Members lists exactly the people of the session, each under its id with its own name. */
  lemma RosterIsExact(ops: seq<Op>, session: string, roster: Roster, id: string)
    requires Disciplined(ops) && session in Run(ops).rooms && IsRosterOf(Run(ops), Run(ops).rooms[session], roster)
    ensures id in roster.members <==> exists c :: InRoom(Run(ops), session, c) && c.id == id
    ensures forall c :: InRoom(Run(ops), session, c) && c.id == id ==> roster.members[id] == ProfileOf(Run(ops), c).name
    ensures InRoom(Run(ops), session, Run(ops).rooms[session].host) && roster.host == Run(ops).rooms[session].host.id
  {
    RunIsGood(ops);
    var s := Run(ops);
    var room := s.rooms[session];
    assert InOrder(s, session, room);
    assert forall c :: InRoom(s, session, c) <==> c == room.host || c in room.members;
  }
}
