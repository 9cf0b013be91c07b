/** The earlier relay (server/main.js): sessions only, no lobby, no alive
    flags, no garbage and no game-over; a chat line goes to the session. It
    shares the world, `join`, `leave` and `broadcast` with the later relay. */
module EarlyRelay {
  import opened Wrappers
  import opened Wire
  import opened RelayState
  import opened Connection
  import opened Membership
  import Relay

  /** The early relay never fills the lobby or starts a grace timer. */
  predicate EarlyInv(w: World) {
    Inv(w) && w.lobby == [] && w.timers == []
  }

  /** The guard of the early `state-update`: the client has a state with a
      slot for the fragment; being alive plays no part. */
  predicate Applies(c: Client, fragment: string) {
    c.state.Some? && fragment in c.state.value
  }

  /** `create-session`: a new session under the fresh id, joined by the
      client, which takes the state it sent and is told the id.  A client
      already in a session throws at the join, leaving the empty session in
      the table. */
  function OnCreateSession(w: World, from: Id, sid: string, state: Option<State>): (r: Handled)
    requires EarlyInv(w) && from in w.clients
    ensures EarlyInv(r.world)
    ensures r.world.table == w.table[sid := w.nextRef]
    ensures w.nextRef in r.world.sessions && r.world.sessions[w.nextRef].id == sid
    ensures r.thrown.Some? <==> w.clients[from].session.Some?
    ensures r.thrown.Some? ==> r.thrown == Some(AlreadyInSession) && r.world.clients == w.clients
                                && r.world.sessions[w.nextRef].members == [] && r.world.out == w.out
    ensures r.thrown.None? ==>
              && r.world.sessions == w.sessions[w.nextRef := Session(sid, [from])]
              && r.world.clients == w.clients[from := w.clients[from].(session := Some(w.nextRef), state := state)]
  {
    var w1 := Relay.NewSession(w, sid);
    var j := Join(w1, w.nextRef, from);
    if j.Failure? then Handled(w1, Some(j.error))
    else
      Seqs.OntoEmpty(w1.sessions[w.nextRef].members, from);
      Seqs.PutTwice(w.sessions, w.nextRef, Session(sid, []), Session(sid, [from]));
      var w3 := Relay.Restate(j.value, from, state);
      Seqs.PutTwice(w.clients, from, w.clients[from].(session := Some(w.nextRef)),
                    w.clients[from].(session := Some(w.nextRef), state := state));
      Relay.EmitKeepsInv(w3, Send(w3.clients, from, SessionCreated(sid), None));
      Handled(Relay.Emit(w3, Send(w3.clients, from, SessionCreated(sid), None)), None)
  }

  /** `join-session`: an unknown id is answered with `session-error` and
      changes nothing else; a known one is joined (throwing if the client
      already has a session) and the client takes the state it sent. */
  function OnJoinSession(w: World, from: Id, sid: string, state: Option<State>): (r: Handled)
    requires EarlyInv(w) && from in w.clients
    ensures EarlyInv(r.world)
    ensures sid !in w.table ==>
              r.thrown == None && r.world == w.(out := w.out + Send(w.clients, from, SessionError(SessionNotFound), None))
    ensures sid in w.table && w.clients[from].session.Some? ==> r == Handled(w, Some(AlreadyInSession))
    ensures sid in w.table && w.clients[from].session.None? ==>
              var ref := w.table[sid];
              && r.thrown == None
              && r.world.sessions == w.sessions[ref := w.sessions[ref].(members := w.sessions[ref].members + [from])]
              && r.world.clients == w.clients[from := w.clients[from].(session := Some(ref), state := state)]
              && r.world.table == w.table
  {
    if sid !in w.table then
      Relay.EmitKeepsInv(w, Send(w.clients, from, SessionError(SessionNotFound), None));
      Handled(Relay.Emit(w, Send(w.clients, from, SessionError(SessionNotFound), None)), None)
    else
      var j := Join(w, w.table[sid], from);
      if j.Failure? then Handled(w, Some(j.error))
      else
        var c := w.clients[from];
        Seqs.PutTwice(w.clients, from, c.(session := Some(w.table[sid])), c.(session := Some(w.table[sid]), state := state));
        Handled(Relay.Restate(j.value, from, state), None)
  }

  /** `state-update`: ignored unless the client has a slot for the fragment;
      otherwise the one property is written and the update is relayed to the
      session as it came (the broadcast throws without a session). */
  function OnUpdate(w: World, from: Id, fragment: string, prop: string, value: Value, linesCleared: Option<int>): (r: Handled)
    requires EarlyInv(w) && from in w.clients
    ensures EarlyInv(r.world)
    ensures !Applies(w.clients[from], fragment) ==> r == Handled(w, None)
    ensures Applies(w.clients[from], fragment) ==>
              var st := w.clients[from].state.value;
              && r.world.clients == w.clients[from := w.clients[from].(state := Some(Relay.Patch(st, fragment, prop, value)))]
              && r.world.(out := w.out, clients := w.clients) == w
    ensures Applies(w.clients[from], fragment) && w.clients[from].session.None? ==>
              r.thrown == Some(NoSession) && r.world.out == w.out
    ensures Applies(w.clients[from], fragment) && w.clients[from].session.Some? ==>
              && r.thrown == None
              && r.world.out == w.out + Broadcast(w, from, StateRelay(fragment, prop, value, linesCleared)).value
  {
    var c := w.clients[from];
    if !Applies(c, fragment) then Handled(w, None)
    else
      var w1 := Relay.Restate(w, from, Some(Relay.Patch(c.state.value, fragment, prop, value)));
      if c.session.None? then Handled(w1, Some(NoSession))
      else
        var ref := c.session.value;
        var relay := StateRelay(fragment, prop, value, linesCleared);
        FanDependsOnlyOnOpen(w1.clients, w.clients, w.sessions[ref].members, Some(from), _ => relay, Some(from));
        Relay.EmitKeepsInv(w1, Broadcast(w1, from, relay).value);
        Handled(Relay.Emit(w1, Broadcast(w1, from, relay).value), None)
  }

  /** `chat-message`: relayed to the other session members, stamped with
      the sender's id and the time it arrived; outside a session nothing
      happens. */
  function OnChat(w: World, from: Id, message: Value, now: int): (r: Handled)
    requires EarlyInv(w) && from in w.clients
    ensures EarlyInv(r.world) && r.thrown == None
    ensures w.clients[from].session.None? ==> r.world == w
    ensures w.clients[from].session.Some? ==>
              r.world == w.(out := w.out + Broadcast(w, from, SessionChat(message, from, now)).value)
  {
    if w.clients[from].session.None? then Handled(w, None)
    else
      var fs := Broadcast(w, from, SessionChat(message, from, now)).value;
      Relay.EmitKeepsInv(w, fs);
      Handled(Relay.Emit(w, fs), None)
  }

  /** `close`: a client in a session leaves it, and a session left with no
      members is deleted from the table under its id; then the client is
      gone from the relay. */
  function OnClose(w: World, c: Id): (r: Handled)
    requires EarlyInv(w) && c in w.clients
    ensures EarlyInv(r.world) && r.thrown == None
    ensures r.world.clients == w.clients - {c}
    ensures forall ref | ref in r.world.sessions :: c !in r.world.sessions[ref].members
    ensures r.world.sessions.Keys == w.sessions.Keys
    ensures w.clients[c].session.None? ==> r.world.sessions == w.sessions && r.world.table == w.table
    ensures w.clients[c].session.Some? ==>
              var ref := w.clients[c].session.value;
              && r.world.sessions == w.sessions[ref := w.sessions[ref].(members := Seqs.Without(w.sessions[ref].members, c))]
              && r.world.table == if r.world.sessions[ref].members == [] then w.table - {w.sessions[ref].id} else w.table
  {
    match w.clients[c].session
    case None =>
      NoSessionNoMember(w, c);
      Handled(Relay.Forget(w, c), None)
    case Some(ref) =>
      var left := Leave(w, ref, c).value;
      assert left.sessions == w.sessions[ref := w.sessions[ref].(members := Seqs.Without(w.sessions[ref].members, c))];
      NoSessionNoMember(Relay.DropIfEmpty(left, ref), c);
      Handled(Relay.Forget(Relay.DropIfEmpty(left, ref), c), None)
  }

  /** What can happen to the early relay: a connection, a frame (with the
      fresh id `createId` would draw and the clock reading `Date.now()` would
      give), a channel that stops being OPEN, a close. */
  datatype Event =
    | Connect(id: Id)
    | Receive(from: Id, req: Request, freshId: string, now: int)
    | Drop(who: Id)
    | Close(who: Id)

  /** The early message switch: lobby, start-game and player-died frames are
      not recognised and change nothing. */
  function OnReceive(w: World, from: Id, req: Request, freshId: string, now: int): (r: Handled)
    requires EarlyInv(w) && from in w.clients
    ensures EarlyInv(r.world)
    ensures (req.JoinLobby? || req.StartGame? || req.Died? || req.Unrecognised?) ==> r == Handled(w, None)
  {
    match req
    case CreateSession(state) => OnCreateSession(w, from, freshId, state)
    case JoinSession(sid, state) => OnJoinSession(w, from, sid, state)
    case Update(fragment, prop, value, linesCleared) => OnUpdate(w, from, fragment, prop, value, linesCleared)
    case Chat(message) => OnChat(w, from, message, now)
    case _ => Handled(w, None)
  }

  function Step(w: World, e: Event): (r: Handled)
    requires EarlyInv(w)
    ensures EarlyInv(r.world)
  {
    match e
    case Connect(id) => Relay.OnConnect(w, id)
    case Receive(from, req, freshId, now) =>
      if from in w.clients then OnReceive(w, from, req, freshId, now) else Handled(w, None)
    case Drop(who) =>
      var r := Relay.OnDrop(w, who);
      assert r.world.lobby == w.lobby && r.world.timers == w.timers;
      r
    case Close(who) => if who in w.clients then OnClose(w, who) else Handled(w, None)
  }

  /** Runs a sequence of events; a throw only ends that handler. */
  function Run(w: World, es: seq<Event>): (r: World)
    requires EarlyInv(w)
    ensures EarlyInv(r)
    decreases |es|
  {
    if es == [] then w else Run(Step(w, es[0]).world, es[1..])
  }
}
