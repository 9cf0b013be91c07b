/** What the earlier relay (server/main.js) does differently from the later
    one, and the round trips of its session handling. */
module EarlyProps {
  import opened Wrappers
  import opened Wire
  import opened Seqs
  import opened RelayState
  import opened Connection
  import Relay
  import opened EarlyRelay

  /** An update from a client that is no longer alive but still has the
      fragment is applied and relayed by the early relay, and ignored by the
      later one. */
  lemma UpdateIgnoresAliveness(w: World, from: Id, fragment: string, prop: string, value: Value, lc: Option<int>)
    requires EarlyInv(w) && from in w.clients
    requires Applies(w.clients[from], fragment) && !w.clients[from].isAlive
    requires w.clients[from].session.Some?
    ensures Relay.OnUpdate(w, from, fragment, prop, value, lc) == Handled(w, None)
    ensures var r := EarlyRelay.OnUpdate(w, from, fragment, prop, value, lc);
            && r.thrown == None
            && r.world.clients[from].state.value[fragment][prop] == value
            && |r.world.out| == |w.out| + |Broadcast(w, from, StateRelay(fragment, prop, value, lc)).value|
  {
    assert !Relay.Accepts(w.clients[from], fragment);
  }

  /** An applied update in a session reaches every other open member exactly
      once, as the relayed update stamped with the sender, whatever
      `linesCleared` says: the early relay has no garbage rule. */
  lemma UpdateRelaysOnly(w: World, from: Id, fragment: string, prop: string, value: Value, lc: Option<int>)
    requires EarlyInv(w) && from in w.clients
    requires Applies(w.clients[from], fragment) && w.clients[from].session.Some?
    ensures var r := EarlyRelay.OnUpdate(w, from, fragment, prop, value, lc);
            && |w.out| <= |r.world.out|
            && (forall t :: CountTo(Relay.Sent(w, r.world), t) ==
                  if t in Peers(w, from) && t != from && w.clients[t].open then 1 else 0)
            && (forall f | f in Relay.Sent(w, r.world) ::
                  f.msg == StateRelay(fragment, prop, value, lc) && f.clientId == Some(from))
  {
    var r := EarlyRelay.OnUpdate(w, from, fragment, prop, value, lc);
    var fs := Broadcast(w, from, StateRelay(fragment, prop, value, lc)).value;
    assert Relay.Sent(w, r.world) == fs;
    BroadcastReachesEachPeerOnce(w, from, StateRelay(fragment, prop, value, lc));
    forall f | f in fs ensures f.msg == StateRelay(fragment, prop, value, lc) && f.clientId == Some(from) {
      var i :| 0 <= i < |fs| && fs[i] == f;
    }
  }

  /** A chat line reaches every other open member of the sender's session
      exactly once, and nobody at all when the sender has no session. */
  lemma ChatReachesSessionPeers(w: World, from: Id, message: Value, now: int)
    requires EarlyInv(w) && from in w.clients
    ensures var r := EarlyRelay.OnChat(w, from, message, now);
            && |w.out| <= |r.world.out|
            && forall t :: CountTo(Relay.Sent(w, r.world), t) ==
                 if t in Peers(w, from) && t != from && w.clients[t].open then 1 else 0
  {
    var r := EarlyRelay.OnChat(w, from, message, now);
    if w.clients[from].session.Some? {
      assert Relay.Sent(w, r.world) == Broadcast(w, from, SessionChat(message, from, now)).value;
      BroadcastReachesEachPeerOnce(w, from, SessionChat(message, from, now));
    } else {
      assert Relay.Sent(w, r.world) == [];
    }
  }

  /** A client that creates a session and then disconnects leaves no trace
      in the table: the session is deleted under its id and is left empty. */
  lemma CreateThenClose(w: World, from: Id, sid: string, state: Option<State>)
    requires EarlyInv(w) && from in w.clients && w.clients[from].session.None?
    ensures var w1 := EarlyRelay.OnCreateSession(w, from, sid, state).world;
            var w2 := EarlyRelay.OnClose(w1, from).world;
            && w2.table == w.table - {sid}
            && w2.clients == w.clients - {from}
            && w2.sessions == w.sessions[w.nextRef := Session(sid, [])]
  {
    var w1 := EarlyRelay.OnCreateSession(w, from, sid, state).world;
    var empty := Session(sid, []);
    OntoEmpty(empty.members, from);
    CloseUndoesLastJoin(w1, from, w.nextRef, empty);
    PutTwice(w.sessions, w.nextRef, Session(sid, [from]), empty);
    RemovePut(w.table, sid, w.nextRef);
    RemovePut(w.clients, from, w.clients[from].(session := Some(w.nextRef), state := state));
  }

  /** Closing a client that was the last to join session `ref` takes the
      session back to the member list `s` had before the join. */
  lemma CloseUndoesLastJoin(w: World, from: Id, ref: SessionRef, s: Session)
    requires EarlyInv(w) && from in w.clients && w.clients[from].session == Some(ref)
    requires ref in w.sessions && w.sessions[ref] == s.(members := s.members + [from]) && from !in s.members
    ensures var w2 := EarlyRelay.OnClose(w, from).world;
            && w2.sessions == w.sessions[ref := s]
            && w2.clients == w.clients - {from}
            && w2.table == if s.members == [] then w.table - {s.id} else w.table
  {
    WithoutAddLast(s.members, from);
    assert AddLast(s.members, from) == s.members + [from];
    assert w.sessions[ref].(members := s.members) == s;
  }

  /** A client without a session that joins a listed session and then
      disconnects leaves every member list as it was; the session's id is
      deleted from the table exactly when the session had no members. */
  lemma JoinThenClose(w: World, from: Id, sid: string, state: Option<State>)
    requires EarlyInv(w) && from in w.clients && w.clients[from].session.None? && sid in w.table
    ensures var w1 := EarlyRelay.OnJoinSession(w, from, sid, state).world;
            var w2 := EarlyRelay.OnClose(w1, from).world;
            var s := w.sessions[w.table[sid]];
            && w2.sessions == w.sessions
            && w2.clients == w.clients - {from}
            && w2.table == if s.members == [] then w.table - {s.id} else w.table
  {
    var ref := w.table[sid];
    var s := w.sessions[ref];
    assert from !in s.members;
    var w1 := EarlyRelay.OnJoinSession(w, from, sid, state).world;
    CloseUndoesLastJoin(w1, from, ref, s);
    PutTwice(w.sessions, ref, s.(members := s.members + [from]), s);
    PutSame(w.sessions, ref);
    RemovePut(w.clients, from, w.clients[from].(session := Some(ref), state := state));
  }
}
