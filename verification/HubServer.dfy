/** The hub object serving a log of operations: its tables follow the state machine, and the calls it
    makes are those of the steps. So everything proved about runs holds of the object. */
module HubServer {
  import opened Common
  import opened HubState
  import opened HubObjects

  /** One round of the hub's own loop. */
  method LoopStep(hub: Hub, op: Op)
    requires hub.Valid() && RoomsAttended(hub.View()) && (op.Register? || op.Unregister?)
    requires op.Register? && op.client !in hub.profiles ==>
               op.client.session == None && op.client.name == None && !op.client.ready
    modifies hub
    ensures hub.Valid() && hub.View() == Step(old(hub.View()), op)
    ensures hub.outbox == old(hub.outbox) + Notes(old(hub.View()), op)
    ensures hub.sessions.Values <= old(hub.sessions.Values)
    ensures hub.profiles.Keys == old(hub.profiles.Keys) + if op.Register? then {op.client} else {}
  {
    if op.Register? {
      hub.Register(op.client);
    } else {
      hub.Unregister(op.client);
    }
  }

  /** An RPC served on a client's connection. */
  method CallStep(hub: Hub, op: Op, answer: Client -> string)
    requires hub.Valid() && (op.Host? || op.Join? || op.Handle?)
    modifies hub, hub.profiles.Keys, hub.sessions.Values
    ensures hub.Valid() && hub.View() == Step(old(hub.View()), op)
    ensures hub.outbox == old(hub.outbox) + Notes(old(hub.View()), op)
    ensures fresh(hub.sessions.Values - old(hub.sessions.Values))
    ensures hub.profiles.Keys == old(hub.profiles.Keys)
  {
    if op.Host? {
      var reply := hub.Host(op.id, op.name, op.session);
    } else if op.Join? {
      var reply := hub.Join(op.id, op.name, op.session);
    } else {
      var reply := hub.Handle(Some(op.message), answer, "");
    }
  }

  /** One operation: a round of the loop, or an RPC. */
  method Perform(hub: Hub, op: Op, answer: Client -> string)
    requires hub.Valid() && RoomsAttended(hub.View())
    requires op.Register? && op.client !in hub.profiles ==>
               op.client.session == None && op.client.name == None && !op.client.ready
    modifies hub, hub.profiles.Keys, hub.sessions.Values
    ensures hub.Valid() && hub.View() == Step(old(hub.View()), op)
    ensures hub.outbox == old(hub.outbox) + Notes(old(hub.View()), op)
    ensures fresh(hub.sessions.Values - old(hub.sessions.Values))
    ensures hub.profiles.Keys == old(hub.profiles.Keys) + if op.Register? then {op.client} else {}
  {
    if op.Register? || op.Unregister? {
      LoopStep(hub, op);
    } else {
      CallStep(hub, op, answer);
    }
  }

  /** The clients a log registers. */
  function Registrants(ops: seq<Op>): set<Client> {
    set op | op in ops && op.Register? :: op.client
  }

  lemma LogGrows(ops: seq<Op>, i: nat)
    requires i < |ops|
    ensures Run(ops[..i + 1]) == Step(Run(ops[..i]), ops[i])
    ensures AllNotes(ops[..i + 1]) == AllNotes(ops[..i]) + Notes(Run(ops[..i]), ops[i])
  {
    assert ops[..i + 1][..i] == ops[..i];
  }

  /** The hub object is where the run of the first `i` operations ends. */
  ghost predicate Follows(hub: Hub, ops: seq<Op>, i: nat)
    requires i <= |ops|
    reads hub
  {
    && hub.View() == Run(ops[..i]) && hub.outbox == AllNotes(ops[..i])
    && hub.profiles.Keys <= Registrants(ops)
  }

  predicate New(c: Client)
    reads c
  {
    c.session == None && c.name == None && !c.ready
  }

  /** The clients that have not registered yet are as they were created. */
  ghost predicate OthersNew(hub: Hub, ops: seq<Op>)
    reads hub`profiles, Registrants(ops)
  {
    forall c :: c in Registrants(ops) && c !in hub.profiles ==> New(c)
  }

  method Round(hub: Hub, ops: seq<Op>, i: nat, answer: Client -> string)
    requires i < |ops| && hub.Valid() && Follows(hub, ops, i) && OthersNew(hub, ops)
    modifies hub, hub.profiles.Keys, hub.sessions.Values
    ensures hub.Valid() && Follows(hub, ops, i + 1) && OthersNew(hub, ops)
    ensures fresh(hub.sessions.Values - old(hub.sessions.Values))
  {
    LogGrows(ops, i);
    RunKeepsTables(ops[..i]);
    assert ops[i].Register? ==> ops[i].client in Registrants(ops);
    Perform(hub, ops[i], answer);
  }

  /** A new hub that serves a log of operations follows its run exactly, provided each client
      registers as it was created. */
  method Serve(ops: seq<Op>, answer: Client -> string) returns (hub: Hub)
    requires forall c :: c in Registrants(ops) ==> New(c)
    modifies Registrants(ops)
    ensures hub.Valid() && hub.View() == Run(ops) && hub.outbox == AllNotes(ops)
  {
    hub := new Hub();
    for i := 0 to |ops|
      invariant fresh(hub) && fresh(hub.sessions.Values)
      invariant hub.Valid() && Follows(hub, ops, i) && OthersNew(hub, ops)
    {
      Round(hub, ops, i, answer);
    }
    assert ops[..|ops|] == ops;
  }
}
