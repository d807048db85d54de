/** The sessions as a function of the operation log: who is in a session, where a client is, who was
    told what, and what closing a session means for the rest of the run. */
module HubHistory {
  import opened Common
  import opened HubState
  import opened HubDiscipline

  // ----- Without any discipline -----

  /** The operation at `i` opened `session` with `c` as its host. */
  predicate HostedAt(ops: seq<Op>, i: int, c: Client, session: string) {
    && 0 <= i < |ops| && ops[i].Host? && ops[i].session == session
    && ops[i].id in Run(ops[..i]).ids && Run(ops[..i]).ids[ops[i].id] == c
  }

  /** The operation at `i` made `c` a member of `session`. */
  predicate JoinedAt(ops: seq<Op>, i: int, c: Client, session: string) {
    && 0 <= i < |ops| && ops[i].Join? && ops[i].session == session && session in Run(ops[..i]).rooms
    && ops[i].id in Run(ops[..i]).ids && Run(ops[..i]).ids[ops[i].id] == c
  }

  predicate OpenedAt(ops: seq<Op>, i: int, session: string) {
    0 <= i < |ops| && ops[i].Host? && ops[i].session == session && ops[i].id in Run(ops[..i]).ids
  }

  /** `c` joined `session` at `i`, and the session was not opened again since. */
  ghost predicate JoinedSince(ops: seq<Op>, i: int, c: Client, session: string) {
    JoinedAt(ops, i, c, session) && forall j :: i < j < |ops| ==> !OpenedAt(ops, j, session)
  }

  predicate EnteredAt(ops: seq<Op>, i: int, c: Client, session: string) {
    HostedAt(ops, i, c, session) || JoinedAt(ops, i, c, session)
  }

  /** The latest Host or Join of `c` that succeeded is the one at `i`, and it names `session`. */
  ghost predicate LatestEntry(ops: seq<Op>, i: int, c: Client, session: string) {
    EnteredAt(ops, i, c, session) && forall j, k :: i < j < |ops| ==> !EnteredAt(ops, j, c, k)
  }

  /** Facts about earlier operations do not change when the log grows. */
  lemma EarlierIsStable(before: seq<Op>, op: Op, i: int, c: Client, session: string)
    requires 0 <= i < |before|
    ensures JoinedAt(before + [op], i, c, session) == JoinedAt(before, i, c, session)
    ensures HostedAt(before + [op], i, c, session) == HostedAt(before, i, c, session)
    ensures OpenedAt(before + [op], i, session) == OpenedAt(before, i, session)
  {
    assert (before + [op])[..i] == before[..i];
  }

  lemma RunSnoc(before: seq<Op>, op: Op)
    ensures Run(before + [op]) == Step(Run(before), op)
  {
    assert (before + [op])[..|before|] == before;
  }

  lemma JoinedSinceSnoc(before: seq<Op>, op: Op, c: Client, session: string)
    ensures (exists i :: JoinedSince(before + [op], i, c, session))
            <==> !OpenedAt(before + [op], |before|, session)
                 && (JoinedAt(before + [op], |before|, c, session) || exists i :: JoinedSince(before, i, c, session))
  {
    var ops := before + [op];
    var n := |before|;
    forall i | 0 <= i < n
      ensures JoinedAt(ops, i, c, session) == JoinedAt(before, i, c, session)
      ensures OpenedAt(ops, i, session) == OpenedAt(before, i, session)
    {
      EarlierIsStable(before, op, i, c, session);
    }
    if JoinedAt(ops, n, c, session) { assert JoinedSince(ops, n, c, session); }
    if !OpenedAt(ops, n, session) {
      forall i | JoinedSince(before, i, c, session) ensures JoinedSince(ops, i, c, session) {}
    }
    forall i | JoinedSince(ops, i, c, session) && i < n ensures JoinedSince(before, i, c, session) {}
  }

  /** Members of a session are exactly the clients that joined it since it was last opened. */
  lemma {:induction false} MembersAreJoiners(ops: seq<Op>, session: string, c: Client)
    requires session in Run(ops).rooms
    ensures c in Run(ops).rooms[session].members <==> exists i :: JoinedSince(ops, i, c, session)
  {
    if ops != [] {
      var before, op := ops[..|ops| - 1], ops[|ops| - 1];
      assert ops == before + [op];
      JoinedSinceSnoc(before, op, c, session);
      RunKeepsTables(before);
      if session in Run(before).rooms { MembersAreJoiners(before, session, c); }
    }
  }

  /** The latest Host of `session` that succeeded was made by `c`, at `i`. */
  ghost predicate OpenedSince(ops: seq<Op>, i: int, c: Client, session: string) {
    HostedAt(ops, i, c, session) && forall j :: i < j < |ops| ==> !OpenedAt(ops, j, session)
  }

  lemma OpenedSinceSnoc(before: seq<Op>, op: Op, c: Client, session: string)
    ensures (exists i :: OpenedSince(before + [op], i, c, session))
            <==> HostedAt(before + [op], |before|, c, session)
                 || (!OpenedAt(before + [op], |before|, session) && exists i :: OpenedSince(before, i, c, session))
  {
    var ops := before + [op];
    var n := |before|;
    forall i | 0 <= i < n
      ensures HostedAt(ops, i, c, session) == HostedAt(before, i, c, session)
      ensures OpenedAt(ops, i, session) == OpenedAt(before, i, session)
    {
      EarlierIsStable(before, op, i, c, session);
    }
    if HostedAt(ops, n, c, session) { assert OpenedSince(ops, n, c, session); }
    if !OpenedAt(ops, n, session) {
      forall i | OpenedSince(before, i, c, session) ensures OpenedSince(ops, i, c, session) {}
    }
    forall i | OpenedSince(ops, i, c, session) && i < n ensures OpenedSince(before, i, c, session) {}
  }

  lemma HostAfterStep(s: State, op: Op, session: string)
    requires session in Step(s, op).rooms
    ensures if op.Host? && op.session == session && op.id in s.ids then Step(s, op).rooms[session].host == s.ids[op.id]
            else session in s.rooms && Step(s, op).rooms[session].host == s.rooms[session].host
  {
  }

  /** The host of a session is the client that opened it last. */
  lemma {:induction false} HostIsLatestOpener(ops: seq<Op>, session: string, c: Client)
    requires session in Run(ops).rooms
    ensures Run(ops).rooms[session].host == c <==> exists i :: OpenedSince(ops, i, c, session)
  {
    if ops != [] {
      var before, op := ops[..|ops| - 1], ops[|ops| - 1];
      assert ops == before + [op];
      OpenedSinceSnoc(before, op, c, session);
      HostAfterStep(Run(before), op, session);
      if session in Run(before).rooms { HostIsLatestOpener(before, session, c); }
    }
  }

  /** The operation at `j` unregistered the host of `session` while it was in that session. */
  predicate ClosedAt(ops: seq<Op>, j: int, session: string) {
    && 0 <= j < |ops| && ops[j].Unregister?
    && var s, c := Run(ops[..j]), ops[j].client;
       c in s.clients && session in s.rooms && s.rooms[session].host == c && ProfileOf(s, c).session == Some(session)
  }

  ghost predicate OpenSince(ops: seq<Op>, i: int, session: string) {
    OpenedAt(ops, i, session) && forall j :: i < j < |ops| ==> !ClosedAt(ops, j, session)
  }

  lemma OpenSinceSnoc(before: seq<Op>, op: Op, session: string)
    ensures (exists i :: OpenSince(before + [op], i, session))
            <==> OpenedAt(before + [op], |before|, session)
                 || (!ClosedAt(before + [op], |before|, session) && exists i :: OpenSince(before, i, session))
  {
    var ops := before + [op];
    var n := |before|;
    forall i | 0 <= i < n
      ensures OpenedAt(ops, i, session) == OpenedAt(before, i, session)
      ensures ClosedAt(ops, i, session) == ClosedAt(before, i, session)
    {
      assert ops[..i] == before[..i];
    }
    if OpenedAt(ops, n, session) { assert OpenSince(ops, n, session); }
    if !ClosedAt(ops, n, session) {
      forall i | OpenSince(before, i, session) ensures OpenSince(ops, i, session) {}
    }
    forall i | OpenSince(ops, i, session) && i < n ensures OpenSince(before, i, session) {}
  }

  /** The sessions in the table are those opened and not closed since, where only the unregistering of
      the host, while it is in the session, closes one. */
  lemma {:induction false} RoomsAreOpen(ops: seq<Op>, session: string)
    ensures session in Run(ops).rooms <==> exists i :: OpenSince(ops, i, session)
  {
    if ops != [] {
      var before, op := ops[..|ops| - 1], ops[|ops| - 1];
      assert ops == before + [op];
      OpenSinceSnoc(before, op, session);
      RoomsAreOpen(before, session);
    }
  }

  lemma LatestEntrySnoc(before: seq<Op>, op: Op, c: Client, session: string)
    ensures (exists i :: LatestEntry(before + [op], i, c, session))
            <==> EnteredAt(before + [op], |before|, c, session)
                 || ((forall k :: !EnteredAt(before + [op], |before|, c, k))
                     && exists i :: LatestEntry(before, i, c, session))
  {
    var ops := before + [op];
    var n := |before|;
    forall i, k | 0 <= i < n ensures EnteredAt(ops, i, c, k) == EnteredAt(before, i, c, k) {
      EarlierIsStable(before, op, i, c, k);
    }
    if EnteredAt(ops, n, c, session) { assert LatestEntry(ops, n, c, session); }
    if forall k :: !EnteredAt(ops, n, c, k) {
      forall i | LatestEntry(before, i, c, session) ensures LatestEntry(ops, i, c, session) {}
    }
    forall i | LatestEntry(ops, i, c, session) && i < n ensures LatestEntry(before, i, c, session) {}
  }

  /** A client's session is the one named by its latest successful Host or Join. */
  lemma {:induction false} SessionIsLatestEntry(ops: seq<Op>, c: Client, session: string)
    ensures ProfileOf(Run(ops), c).session == Some(session) <==> exists i :: LatestEntry(ops, i, c, session)
  {
    if ops != [] {
      var before, op := ops[..|ops| - 1], ops[|ops| - 1];
      assert ops == before + [op];
      LatestEntrySnoc(before, op, c, session);
      SessionIsLatestEntry(before, c, session);
      RunKeepsTables(before);
      var s := Run(before);
      if op.Host? && op.id in s.ids && s.ids[op.id] == c { assert EnteredAt(ops, |before|, c, op.session); }
      if op.Join? && op.session in s.rooms && op.id in s.ids && s.ids[op.id] == c {
        assert EnteredAt(ops, |before|, c, op.session);
      }
    }
  }

  /** That entry also gave the client its name and made it ready. */
  lemma {:induction false} ProfileIsFromLatestEntry(ops: seq<Op>, i: int, c: Client, session: string)
    requires LatestEntry(ops, i, c, session)
    ensures ProfileOf(Run(ops), c) == Profile(Some(session), Some(ops[i].name), true)
  {
    var before, op := ops[..|ops| - 1], ops[|ops| - 1];
    assert ops == before + [op];
    RunKeepsTables(before);
    if i < |before| {
      forall j, k | 0 <= j < |before| ensures EnteredAt(ops, j, c, k) == EnteredAt(before, j, c, k) {
        EarlierIsStable(before, op, j, c, k);
      }
      assert LatestEntry(before, i, c, session);
      ProfileIsFromLatestEntry(before, i, c, session);
      StepWithoutEntry(before, op, c);
    }
  }

  lemma StepWithoutEntry(before: seq<Op>, op: Op, c: Client)
    requires forall k :: !EnteredAt(before + [op], |before|, c, k)
    ensures ProfileOf(Step(Run(before), op), c) == ProfileOf(Run(before), c)
  {
    var ops := before + [op];
    assert ops[..|before|] == before;
    var s := Run(before);
    assert op.Host? ==> !EnteredAt(ops, |before|, c, op.session);
    assert op.Join? ==> !EnteredAt(ops, |before|, c, op.session);
  }

  /** The members Handle considers are the joiners whose latest entry names this session. */
  lemma CandidatesAreLatestJoiners(ops: seq<Op>, session: string, c: Client)
    requires session in Run(ops).rooms
    ensures c in Candidates(Run(ops), session)
            <==> (exists i :: JoinedSince(ops, i, c, session)) && (exists i :: LatestEntry(ops, i, c, session))
  {
    MembersAreJoiners(ops, session, c);
    SessionIsLatestEntry(ops, c, session);
    RunKeepsTables(ops);
    if c in Run(ops).rooms[session].members { assert Attended(Run(ops), c); }
  }

  // ----- Who may call, and when a call kills the hub -----

  /** The operation at `j` took a client with this id out of the tables. */
  predicate RemovedAt(ops: seq<Op>, j: int, id: string) {
    0 <= j < |ops| && ops[j].Unregister? && ops[j].client.id == id && ops[j].client in Run(ops[..j]).clients
  }

  /** A client with this id registered at `i`, and none with this id was taken out since. */
  ghost predicate RegisteredSince(ops: seq<Op>, i: int, id: string) {
    && 0 <= i < |ops| && ops[i].Register? && ops[i].client.id == id
    && forall j :: i < j < |ops| ==> !RemovedAt(ops, j, id)
  }

  ghost predicate IsRegistered(ops: seq<Op>, id: string) {
    exists i :: RegisteredSince(ops, i, id)
  }

  lemma RegisteredSinceIsStable(before: seq<Op>, op: Op, i: int, id: string)
    requires 0 <= i < |before|
    ensures RegisteredSince(before + [op], i, id)
            <==> RegisteredSince(before, i, id) && !RemovedAt(before + [op], |before|, id)
  {
    var ops := before + [op];
    forall j | i < j < |before| ensures RemovedAt(ops, j, id) == RemovedAt(before, j, id) {
      assert ops[..j] == before[..j];
    }
  }

  lemma IsRegisteredSnoc(before: seq<Op>, op: Op, id: string)
    ensures var removed := op.Unregister? && op.client.id == id && op.client in Run(before).clients;
            IsRegistered(before + [op], id)
            <==> (op.Register? && op.client.id == id) || (IsRegistered(before, id) && !removed)
  {
    var ops := before + [op];
    assert ops[..|before|] == before;
    assert RegisteredSince(ops, |before|, id) <==> op.Register? && op.client.id == id;
    forall i | 0 <= i < |before|
      ensures RegisteredSince(ops, i, id) <==> RegisteredSince(before, i, id) && !RemovedAt(ops, |before|, id)
    {
      RegisteredSinceIsStable(before, op, i, id);
    }
  }

  /** The ids the hub can look up are those registered and not taken out since. */
  lemma {:induction false} KnownIdsAreRegistered(ops: seq<Op>, id: string)
    ensures id in Run(ops).ids <==> IsRegistered(ops, id)
  {
    if ops != [] {
      var before, op := ops[..|ops| - 1], ops[|ops| - 1];
      assert ops == before + [op];
      KnownIdsAreRegistered(before, id);
      IsRegisteredSnoc(before, op, id);
    }
  }

  /** In any run, Host kills the hub exactly when its caller's id is not registered at that point,
      and Join exactly when moreover the session exists; nothing else does. */
  lemma CrashesExactlyForTheUnregistered(ops: seq<Op>, op: Op)
    ensures Crashes(Run(ops), op)
            <==> (op.Host? || (op.Join? && op.session in Run(ops).rooms)) && !IsRegistered(ops, op.id)
  {
    if op.Host? || op.Join? { KnownIdsAreRegistered(ops, op.id); }
  }

  /** It happens: a Host or Join that is served after its caller has been unregistered, and a call
      with an id nobody registered. */
  lemma LateCallsCrash(host: Client, late: Client, session: string, name: string, unknown: string)
    requires host.id != late.id && unknown != host.id && unknown != late.id
    ensures var ops := [Register(late), Register(host), Host(host.id, name, session), Unregister(late)];
            && Crashes(Run(ops), Host(late.id, name, "other")) && Crashes(Run(ops), Join(late.id, name, session))
            && Crashes(Run(ops), Host(unknown, name, "other")) && Crashes(Run(ops), Join(unknown, name, session))
  {
    var ops := [Register(late), Register(host), Host(host.id, name, session), Unregister(late)];
    assert ops[..3][..2] == ops[..2] && ops[..2][..1] == ops[..1] && ops[..1][..0] == [];
    assert Run(ops[..1]) == AfterRegister(EMPTY, late);
    assert Run(ops[..2]) == AfterRegister(Run(ops[..1]), host);
    assert Run(ops[..3]) == AfterHost(Run(ops[..2]), host, name, session);
    assert Run(ops) == AfterUnregister(Run(ops[..3]), late);
    assert CurrentRoom(Run(ops[..3]), late) == None;
  }

  // ----- Membership replay -----

  /** The ids that a step announces to `c` with MemberJoin. */
  ghost function ToldBy(s: State, op: Op, c: Client): set<string> {
    set note | note in Notes(s, op) && note.to == c && note.event.MemberJoin? :: note.event.id
  }

  /** The ids announced to `c` by the operations from position `from` on. */
  ghost function Told(ops: seq<Op>, from: nat, c: Client): set<string> {
    if |ops| <= from then {}
    else
      var before := ops[..|ops| - 1];
      Told(before, from, c) + ToldBy(Run(before), ops[|ops| - 1], c)
  }

  lemma NoteInToOthers(room: Room, id: string, e: Event, note: Note)
    ensures note in ToOthers(room, id, e)
            <==> note.event == e && note.to.id != id && (note.to in room.members || note.to == room.host)
  {
    EachCount((set c | c in room.members && c.id != id), e, note);
  }

  /** In a disciplined step, exactly the people of the joined session other than the joiner are told. */
  lemma OnlyJoinsTell(s: State, hosted: set<string>, op: Op, c: Client)
    requires Good(s, hosted) && Allowed(s, hosted, op)
    ensures ToldBy(s, op, c) == if op.Join? && InRoom(s, op.session, c) then {op.id} else {}
  {
    if op.Join? && op.session in s.rooms {
      var room := s.rooms[op.session];
      assert InOrder(s, op.session, room);
      var joiner := s.ids[op.id];
      assert InRoom(s, op.session, c) ==> c != joiner && c.id != joiner.id;
      var announced := Note(c, MemberJoin(op.id));
      NoteInToOthers(room, op.id, MemberJoin(op.id), announced);
      forall note | note in Notes(s, op) && note.to == c ensures note == announced && InRoom(s, op.session, c) {
        NoteInToOthers(room, op.id, MemberJoin(op.id), note);
      }
    } else {
      forall note | note in Notes(s, op) ensures !note.event.MemberJoin? { NotesOfOtherSteps(s, op, note); }
    }
  }

  lemma NotesOfOtherSteps(s: State, op: Op, note: Note)
    requires note in Notes(s, op) && !(op.Join? && op.session in s.rooms)
    ensures !note.event.MemberJoin?
  {
    match op
    case Unregister(c) =>
      var room := s.rooms[CurrentRoom(s, c).value];
      if room.host != c { NoteInToOthers(room, c.id, ParticipantLeave(c.id), note); }
    case Handle(m) =>
      var host := s.rooms[m.session].host;
      EachCount((set d | d in Candidates(s, m.session) && Addressed(m, d)), Deliver(m), note);
    case _ =>
  }

  /** Two sessions have nobody in common. */
  lemma OneRoomEach(s: State, j: string, k: string, c: Client)
    requires RoomsInOrder(s) && InRoom(s, j, c) && InRoom(s, k, c)
    ensures j == k && ProfileOf(s, c).session == Some(j)
  {
    assert InOrder(s, j, s.rooms[j]) && InOrder(s, k, s.rooms[k]);
  }

  lemma {:induction false} NewcomersWereToldNothing(ops: seq<Op>, c: Client)
    requires Disciplined(ops) && ProfileOf(Run(ops), c).session == None
    ensures Told(ops, 0, c) == {}
  {
    if ops != [] {
      var before, op := ops[..|ops| - 1], ops[|ops| - 1];
      RunIsGood(before);
      assert ProfileOf(Run(before), c).session == None;
      NewcomersWereToldNothing(before, c);
      OnlyJoinsTell(Run(before), Hosted(before), op, c);
      if op.Join? && InRoom(Run(before), op.session, c) { OneRoomEach(Run(before), op.session, op.session, c); }
    }
  }

  /** How one step changes the people of a session that survives it. */
  lemma PeopleAfterStep(s: State, hosted: set<string>, op: Op, session: string)
    requires Good(s, hosted) && Allowed(s, hosted, op) && session in s.rooms && session in Step(s, op).rooms
    ensures var room := s.rooms[session]; var room' := Step(s, op).rooms[session];
            && room'.host == room.host && room.members <= room'.members
            && PeopleIds(room') == PeopleIds(room) + (if op.Join? && op.session == session then {op.id} else {})
  {
    if op.Join? && op.session == session {
      var room := s.rooms[session];
      var room' := Step(s, op).rooms[session];
      assert room'.members == room.members + {s.ids[op.id]};
    }
  }

  /** The host of a session can rebuild its members: its own id and every id announced to it. */
  lemma {:induction false} HostReplay(ops: seq<Op>, session: string)
    requires Disciplined(ops) && session in Run(ops).rooms
    ensures var room := Run(ops).rooms[session];
            PeopleIds(room) == {room.host.id} + Told(ops, 0, room.host)
  {
    if ops != [] {
      var before, op := ops[..|ops| - 1], ops[|ops| - 1];
      var s := Run(before);
      RunIsGood(before);
      if session in s.rooms {
        HostReplay(before, session);
        PeopleAfterStep(s, Hosted(before), op, session);
        StepTellsPerson(s, Hosted(before), op, session, s.rooms[session].host);
      } else {
        var host := s.ids[op.id];
        NewcomersWereToldNothing(before, host);
        OnlyJoinsTell(s, Hosted(before), op, host);
        assert PeopleIds(Room(host, {})) == {host.id};
      }
    }
  }

  lemma StepTellsPerson(s: State, hosted: set<string>, op: Op, session: string, c: Client)
    requires Good(s, hosted) && Allowed(s, hosted, op) && InRoom(s, session, c)
    ensures ToldBy(s, op, c) == if op.Join? && op.session == session then {op.id} else {}
  {
    OnlyJoinsTell(s, hosted, op, c);
    if op.Join? && InRoom(s, op.session, c) { OneRoomEach(s, op.session, session, c); }
  }

  /** A session id hosted before and gone from the table never comes back. */
  lemma {:induction false} GoneStaysGone(ops: seq<Op>, k: nat, session: string)
    requires Disciplined(ops) && k <= |ops| && session in Hosted(ops[..k]) && session !in Run(ops[..k]).rooms
    ensures session in Hosted(ops) && session !in Run(ops).rooms
    decreases |ops|
  {
    if k == |ops| {
      assert ops[..k] == ops;
    } else {
      var before := ops[..|ops| - 1];
      assert before[..k] == ops[..k];
      GoneStaysGone(before, k, session);
    }
  }

  /** A participant can do the same from the members it saw when it was already in the session and
      the ids announced to it since, in whatever order they reached it. */
  lemma {:induction false} ParticipantReplay(ops: seq<Op>, k: nat, session: string, c: Client)
    requires Disciplined(ops) && k <= |ops| && InRoom(Run(ops[..k]), session, c) && session in Run(ops).rooms
    ensures InRoom(Run(ops), session, c)
    ensures PeopleIds(Run(ops).rooms[session]) == PeopleIds(Run(ops[..k]).rooms[session]) + Told(ops, k, c)
    decreases |ops|
  {
    if k == |ops| {
      assert ops[..k] == ops;
    } else {
      var before, op := ops[..|ops| - 1], ops[|ops| - 1];
      assert before[..k] == ops[..k];
      RoomWasThereAllAlong(ops, k, session);
      ParticipantReplay(before, k, session, c);
      RunIsGood(before);
      var seen := PeopleIds(Run(ops[..k]).rooms[session]);
      ReplayStep(Run(before), Hosted(before), op, session, c, seen, Told(before, k, c));
    }
  }

  lemma ReplayStep(s: State, hosted: set<string>, op: Op, session: string, c: Client,
                   seen: set<string>, told: set<string>)
    requires Good(s, hosted) && Allowed(s, hosted, op) && InRoom(s, session, c) && session in Step(s, op).rooms
    requires PeopleIds(s.rooms[session]) == seen + told
    ensures InRoom(Step(s, op), session, c)
    ensures PeopleIds(Step(s, op).rooms[session]) == seen + (told + ToldBy(s, op, c))
  {
    PeopleAfterStep(s, hosted, op, session);
    StepTellsPerson(s, hosted, op, session, c);
  }

  lemma RoomWasThereAllAlong(ops: seq<Op>, k: nat, session: string)
    requires Disciplined(ops) && k < |ops| && session in Run(ops[..k]).rooms && session in Run(ops).rooms
    ensures session in Run(ops[..|ops| - 1]).rooms
  {
    var before := ops[..|ops| - 1];
    assert before[..k] == ops[..k];
    RoomsWereHosted(before, k, session);
  }

  lemma RoomsWereHosted(ops: seq<Op>, k: nat, session: string)
    requires Disciplined(ops) && k <= |ops| && session in Run(ops[..k]).rooms
    ensures session in Hosted(ops)
  {
    PrefixIsDisciplined(ops, k);
    RunIsGood(ops[..k]);
    HostedGrows(ops, k);
  }

  lemma {:induction false} HostedGrows(ops: seq<Op>, k: nat)
    requires k <= |ops|
    ensures Hosted(ops[..k]) <= Hosted(ops)
    decreases |ops|
  {
    if k < |ops| {
      HostedGrows(ops[..|ops| - 1], k);
      assert ops[..|ops| - 1][..k] == ops[..k];
    } else {
      assert ops[..k] == ops;
    }
  }

  // ----- Leaving and closing a session -----

  /** When anyone but the host unregisters, everyone else in its session, and nobody outside it, is
      told once that it left; the session itself is not changed. */
  lemma LeavingTellsTheOthers(ops: seq<Op>, session: string, c: Client, note: Note)
    requires Disciplined(ops) && InRoom(Run(ops), session, c)
    requires c != Run(ops).rooms[session].host && c in Run(ops).clients
    ensures Notes(Run(ops), Unregister(c))[note]
            == if note.event == ParticipantLeave(c.id) && InRoom(Run(ops), session, note.to) && note.to != c
               then 1 else 0
    ensures Step(Run(ops), Unregister(c)).rooms == Run(ops).rooms
  {
    RunIsGood(ops);
    var s := Run(ops);
    var room := s.rooms[session];
    assert InOrder(s, session, room);
    EachCount((set d | d in room.members && d.id != c.id), ParticipantLeave(c.id), note);
  }

  /** When its host unregisters, each client that ever joined the session is called once, with
      SessionClosed naming that session, and nobody else is called. */
  lemma ClosingTellsEveryJoiner(ops: seq<Op>, session: string, note: Note)
    requires Disciplined(ops) && session in Run(ops).rooms
    ensures var s := Run(ops); var host := s.rooms[session].host;
            Notes(s, Unregister(host))[note]
            == if note.event == SessionClosed(session) && exists i :: JoinedAt(ops, i, note.to, session) then 1 else 0
  {
    RunIsGood(ops);
    var s := Run(ops);
    var room := s.rooms[session];
    assert InOrder(s, session, room);
    assert CurrentRoom(s, room.host) == Some(session);
    var told := set c | c in room.members && c.id != room.host.id :: Note(c, ClosingEvent(s.profiles, c));
    assert note in told <==> note.to in room.members && note.event == SessionClosed(session);
    EverJoinedIsMember(ops, session, note.to);
  }

  lemma {:induction false} EverJoinedIsMember(ops: seq<Op>, session: string, c: Client)
    requires Disciplined(ops) && session in Run(ops).rooms
    ensures c in Run(ops).rooms[session].members <==> exists i :: JoinedAt(ops, i, c, session)
  {
    MembersAreJoiners(ops, session, c);
    forall i | JoinedAt(ops, i, c, session) ensures JoinedSince(ops, i, c, session) {
      forall j | i < j < |ops| ensures !OpenedAt(ops, j, session) {
        PrefixIsDisciplined(ops, j + 1);
        assert ops[..j + 1][..j] == ops[..j];
        assert ops[..j][..i] == ops[..i];
        RoomsWereHosted(ops[..j], i, session);
      }
    }
  }

  /** After that the id is gone for the rest of the run: Members and Handle on it fail. */
  lemma ClosedForGood(ops: seq<Op>, k: nat, session: string, m: Message)
    requires Disciplined(ops) && k < |ops| && session in Run(ops[..k]).rooms
    requires ops[k] == Unregister(Run(ops[..k]).rooms[session].host)
    ensures session !in Run(ops).rooms
    ensures m.session == session ==> Notes(Run(ops), Handle(m)) == multiset{}
  {
    PrefixIsDisciplined(ops, k);
    PrefixIsDisciplined(ops, k + 1);
    assert ops[..k + 1][..k] == ops[..k];
    RunIsGood(ops[..k]);
    HostClosesItsRoom(Run(ops[..k]), session);
    RoomsWereHosted(ops[..k + 1], k, session);
    GoneStaysGone(ops, k + 1, session);
  }

  lemma HostClosesItsRoom(s: State, session: string)
    requires RoomsInOrder(s) && session in s.rooms
    ensures session !in Step(s, Unregister(s.rooms[session].host)).rooms
  {
    assert InOrder(s, session, s.rooms[session]);
  }

  /** A client that entered a session keeps that session as its own. */
  lemma {:induction false} SeatIsKept(ops: seq<Op>, k: nat, session: string, c: Client)
    requires Disciplined(ops) && k <= |ops| && ProfileOf(Run(ops[..k]), c).session == Some(session)
    ensures ProfileOf(Run(ops), c).session == Some(session)
    decreases |ops|
  {
    if k == |ops| {
      assert ops[..k] == ops;
    } else {
      var before := ops[..|ops| - 1];
      assert before[..k] == ops[..k];
      SeatIsKept(before, k, session, c);
    }
  }

  /** Once a session is closed, its former members can unregister without touching any session or
      calling anybody. */
  lemma LateLeaversDisturbNobody(ops: seq<Op>, k: nat, session: string, c: Client)
    requires Disciplined(ops) && k < |ops| && InRoom(Run(ops[..k]), session, c)
    requires ops[k] == Unregister(Run(ops[..k]).rooms[session].host)
    ensures Step(Run(ops), Unregister(c)).rooms == Run(ops).rooms
    ensures Notes(Run(ops), Unregister(c)) == multiset{}
  {
    PrefixIsDisciplined(ops, k);
    RunIsGood(ops[..k]);
    OneRoomEach(Run(ops[..k]), session, session, c);
    SeatIsKept(ops, k, session, c);
    ClosedForGood(ops, k, session, Message(session, "", "", None, ""));
    assert CurrentRoom(Run(ops), c) == None;
  }

  /** Without the discipline a member may have moved on to another session, and is then told that
      one's id. The closing calls all name the closed session exactly when no member has moved. */
  lemma ClosingNamesTheSessionExactlyWhenNobodyMoved(s: State, session: string)
    requires RoomsAttended(s) && session in s.rooms
    ensures (forall note :: note in ClosingNotes(s.profiles, s.rooms[session]) ==> note.event == SessionClosed(session))
            <==> forall c :: c in s.rooms[session].members && c.id != s.rooms[session].host.id ==>
                   ProfileOf(s, c).session == Some(session)
  {
    var room := s.rooms[session];
    var told := set c | c in room.members && c.id != room.host.id :: Note(c, ClosingEvent(s.profiles, c));
    forall c | c in room.members && c.id != room.host.id
      ensures Attended(s, c) && Note(c, ClosingEvent(s.profiles, c)) in told
    {
      assert Attended(s, c);
    }
    forall note | note in ClosingNotes(s.profiles, room)
      ensures note in told && note.to in room.members && note.to.id != room.host.id
              && note.event == ClosingEvent(s.profiles, note.to)
    {
    }
  }

  /** It happens: a client that joined two sessions is told the wrong one. */
  lemma MovedMemberIsToldTheOtherSession(s: State, first: string, second: string, id: string, name: string)
    requires RoomsAttended(s) && TablesAgree(s)
    requires first != second && first in s.rooms && second in s.rooms && id in s.ids
    requires s.rooms[first].host.id != id
    ensures var s' := Step(Step(s, Join(id, name, first)), Join(id, name, second));
            first in s'.rooms && Note(s.ids[id], SessionClosed(second)) in ClosingNotes(s'.profiles, s'.rooms[first])
  {
    var s' := Step(Step(s, Join(id, name, first)), Join(id, name, second));
    var c := s.ids[id];
    assert c in s'.rooms[first].members && s'.profiles[c].session == Some(second);
    assert Note(c, SessionClosed(second)) == Note(c, ClosingEvent(s'.profiles, c));
  }
}
