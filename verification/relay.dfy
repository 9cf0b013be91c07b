/** The relay's message switch and close handler (server/server.js:83-299):
    one step function per incoming frame, disconnect and grace-timer event,
    over the immutable world of `RelayState`. */
module Relay {
  import opened Wrappers
  import opened Wire
  import opened Seqs
  import opened RelayState
  import opened Connection
  import opened Membership
  import Arena

  // ------------------------------------------------------------ helpers

  /** Appends frames to the output log. */
  function Emit(w: World, fs: seq<Frame>): (r: World)
    ensures r.out == w.out + fs
    ensures r.(out := w.out) == w
  {
    w.(out := w.out + fs)
  }

  lemma EmitKeepsInv(w: World, fs: seq<Frame>)
    requires Inv(w)
    ensures Inv(Emit(w, fs))
  {
  }

  /** The frames appended between two worlds. */
  function Sent(before: World, after: World): seq<Frame>
    requires |before.out| <= |after.out|
  {
    after.out[|before.out|..]
  }

  /** Replaces one client record. */
  function Put(w: World, k: Id, c: Client): World {
    w.(clients := w.clients[k := c])
  }

  /** The player list of `broadcastLobbyState`: every lobby client's id,
      username and user id, in lobby order. */
  function LobbyPlayers(w: World): (r: seq<PlayerInfo>)
    requires LobbyWellFormed(w)
    ensures |r| == |w.lobby|
    ensures forall i | 0 <= i < |r| ::
              r[i] == PlayerInfo(w.lobby[i], w.clients[w.lobby[i]].username, w.clients[w.lobby[i]].userId)
  {
    seq(|w.lobby|, i requires 0 <= i < |w.lobby| =>
      PlayerInfo(w.lobby[i], w.clients[w.lobby[i]].username, w.clients[w.lobby[i]].userId))
  }

  /** `broadcastLobbyState`: each open lobby client gets the player list with
      its own id as `yourId`. */
  function LobbyStateFrames(w: World): seq<Frame>
    requires LobbyWellFormed(w)
  {
    var players := LobbyPlayers(w);
    Fan(w.clients, w.lobby, None, m => LobbyState(m, players), None)
  }

  /** Every open lobby client receives exactly one lobby state, addressed to
      itself and listing the whole lobby. */
  lemma LobbyStateReachesEachOnce(w: World)
    requires LobbyWellFormed(w)
    ensures forall t :: CountTo(LobbyStateFrames(w), t) ==
              if t in w.lobby && w.clients[t].open then 1 else 0
    ensures forall f | f in LobbyStateFrames(w) ::
              f.msg == LobbyState(f.to, LobbyPlayers(w)) && f.clientId == None
  {
    var players := LobbyPlayers(w);
    FanReachesEachOnce(w.clients, w.lobby, None, m => LobbyState(m, players), None);
  }

  /** The members of `members` that are alive, in member order: the
      `filter(c => c.isAlive)` of the resolution check. */
  function AliveMembers(clients: map<Id, Client>, members: seq<Id>): (r: seq<Id>)
    requires forall m | m in members :: m in clients
    ensures forall x :: x in r <==> x in members && clients[x].isAlive
    ensures Subsequence(r, members)
    ensures NoDup(members) ==> NoDup(r)
  {
    if members == [] then []
    else
      var rest := AliveMembers(clients, members[1..]);
      assert NoDup(members) ==> NoDup(members[1..]) && members[0] !in members[1..] by {
        if NoDup(members) {
          forall i, j | 0 <= i < j < |members[1..]| ensures members[1..][i] != members[1..][j] {
            assert members[1..][i] == members[i + 1] && members[1..][j] == members[j + 1];
          }
          forall i | 0 <= i < |members[1..]| ensures members[1..][i] != members[0] {
            assert members[1..][i] == members[i + 1];
          }
        }
      }
      if clients[members[0]].isAlive then
        assert NoDup(members) ==> NoDup([members[0]] + rest) by {
          if NoDup(members) {
            var s := [members[0]] + rest;
            forall i, j | 0 <= i < j < |s| ensures s[i] != s[j] {
              if i == 0 { assert s[j] == rest[j - 1]; }
              else { assert s[i] == rest[i - 1] && s[j] == rest[j - 1]; }
            }
          }
        }
        [members[0]] + rest
      else rest
  }

  /** A list without duplicates has exactly one element iff one element is in
      it and every element in it equals that one. */
  lemma SingletonIff(s: seq<Id>, x: Id)
    requires NoDup(s)
    ensures s == [x] <==> x in s && forall y | y in s :: y == x
  {
    if x in s && forall y | y in s :: y == x {
      if |s| >= 2 {
        assert s[0] in s && s[1] in s;
      }
    }
  }

  /** `winner.state.player.score`: `None` where reading it throws (no state,
      or no `player` fragment); a missing `score` reads as `undefined`. */
  function ScoreOf(c: Client): (r: Option<Value>)
    ensures r.None? <==> c.state.None? || PlayerFragment !in c.state.value
    ensures r.Some? && ScoreProp in c.state.value[PlayerFragment] ==>
              r.value == c.state.value[PlayerFragment][ScoreProp]
  {
    if c.state.None? || PlayerFragment !in c.state.value then None
    else if ScoreProp in c.state.value[PlayerFragment] then Some(c.state.value[PlayerFragment][ScoreProp])
    else Some(Undefined)
  }

  /** The state `start-game` hands each player: a 20-row, 12-column empty
      arena, and a player with no piece at the origin with score 0. */
  const StartArena := map["matrix" := Cells(Arena.New(12, 20))]
  const StartPlayer := map["matrix" := Null, "pos" := Point(0, 0), ScoreProp := Num(0)]
  const StartState: State := map[ArenaFragment := StartArena, PlayerFragment := StartPlayer]

  lemma StartStateShape()
    ensures StartState[ArenaFragment]["matrix"].Cells?
    ensures var g := StartState[ArenaFragment]["matrix"].rows;
            |g| == 20 && forall y | 0 <= y < 20 :: g[y] == Arena.Zeros(12)
    ensures ScoreOf(Client("", true, None, Some(StartState), Null, Null, false, true)) == Some(Num(0))
  {
  }

  // --------------------------------------------------------------- lobby

  /** `join-lobby`: records the name and user id, flags the client `inLobby`,
      puts it last in the lobby (a repeated join keeps its place) and sends
      every open lobby client the new lobby state. */
  function OnJoinLobby(w: World, from: Id, username: Value, userId: Value): (r: Handled)
    requires Inv(w) && from in w.clients
    ensures r.thrown == None && Inv(r.world)
    ensures from in w.lobby ==> r.world.lobby == w.lobby
    ensures from !in w.lobby ==> r.world.lobby == w.lobby + [from]
    ensures r.world.clients == w.clients[from := w.clients[from].(username := username, userId := userId, inLobby := true)]
    ensures r.world.sessions == w.sessions && r.world.table == w.table && r.world.timers == w.timers
    ensures r.world.out == w.out + LobbyStateFrames(r.world)
  {
    var w1 := Enlisted(w, from, username, userId);
    EmitKeepsInv(w1, LobbyStateFrames(w1));
    Handled(Emit(w1, LobbyStateFrames(w1)), None)
  }

  /** The world `join-lobby` leaves before the lobby state is sent: the
      client's names set, its lobby flag raised, and itself added to the
      lobby unless it is already there. */
  function Enlisted(w: World, from: Id, username: Value, userId: Value): (r: World)
    requires Inv(w) && from in w.clients
    ensures Inv(r)
  {
    w.(clients := w.clients[from := w.clients[from].(username := username, userId := userId, inLobby := true)],
       lobby := AddLast(w.lobby, from))
  }

  /** The name a lobby chat line carries: the sender's username when truthy,
      otherwise `'Unknown'`. */
  function ChatName(c: Client): (v: Value)
    ensures Truthy(v)
    ensures Truthy(c.username) ==> v == c.username
  {
    if Truthy(c.username) then c.username else UnknownName
  }

  /** `chat-message`: relayed to every open lobby client except the sender,
      whether or not the sender is in the lobby; nothing else changes. */
  function OnChat(w: World, from: Id, message: Value): (r: Handled)
    requires Inv(w) && from in w.clients
    ensures r.thrown == None && r.world.(out := w.out) == w && |w.out| <= |r.world.out|
    ensures forall t :: CountTo(Sent(w, r.world), t) ==
              if t in w.lobby && t != from && w.clients[t].open then 1 else 0
    ensures forall f | f in Sent(w, r.world) ::
              f.msg == LobbyChat(ChatName(w.clients[from]), message) && f.clientId == None
  {
    var name := ChatName(w.clients[from]);
    var fs := Fan(w.clients, w.lobby, Some(from), _ => LobbyChat(name, message), None);
    FanReachesEachOnce(w.clients, w.lobby, Some(from), _ => LobbyChat(name, message), None);
    var r := Handled(Emit(w, fs), None);
    assert Sent(w, r.world) == fs;
    r
  }

  // ------------------------------------------------------------- sessions

  /** `new Session(id)` entered into the table under its id (replacing any
      entry with the same id): a fresh, empty session object. */
  function NewSession(w: World, sid: string): (r: World)
    requires Inv(w)
    ensures Inv(r)
    ensures w.nextRef !in w.sessions
    ensures r.sessions == w.sessions[w.nextRef := Session(sid, [])]
    ensures r.table == w.table[sid := w.nextRef]
    ensures r.nextRef == w.nextRef + 1
    ensures r.clients == w.clients && r.lobby == w.lobby && r.timers == w.timers && r.out == w.out
  {
    w.(sessions := w.sessions[w.nextRef := Session(sid, [])], nextRef := w.nextRef + 1,
       table := w.table[sid := w.nextRef])
  }

  /** The match flags and state a successful join hands the client. */
  function Enlist(w: World, c: Id, state: Option<State>): (r: World)
    requires Inv(w) && c in w.clients
    ensures Inv(r)
    ensures r.clients == w.clients[c := w.clients[c].(isAlive := true, state := state)]
    ensures r.(clients := w.clients) == w
  {
    UpdateClientKeepsInv(w, c, w.clients[c].(isAlive := true, state := state));
    Put(w, c, w.clients[c].(isAlive := true, state := state))
  }

  /** `create-session`: a new session under the fresh id; the client joins
      it, becomes alive, takes the state it sent and is told the id.  A client
      already in a session throws at the join, leaving the empty session in
      the table. */
  function OnCreateSession(w: World, from: Id, sid: string, state: Option<State>): (r: Handled)
    requires Inv(w) && from in w.clients
    ensures Inv(r.world)
    ensures r.world.table == w.table[sid := w.nextRef]
    ensures w.nextRef in r.world.sessions && r.world.sessions[w.nextRef].id == sid
    ensures r.thrown.Some? <==> w.clients[from].session.Some?
    ensures r.thrown.Some? ==> r.thrown == Some(AlreadyInSession) && r.world.clients == w.clients
                                && r.world.sessions[w.nextRef].members == [] && r.world.out == w.out
    ensures r.thrown.None? ==>
              && r.world.sessions[w.nextRef].members == [from]
              && r.world.clients.Keys == w.clients.Keys
              && r.world.clients[from] == w.clients[from].(session := Some(w.nextRef), isAlive := true, state := state)
              && (forall k | k in w.clients && k != from :: r.world.clients[k] == w.clients[k])
  {
    var w1 := NewSession(w, sid);
    var j := Join(w1, w.nextRef, from);
    if j.Failure? then Handled(w1, Some(j.error))
    else
      var w3 := Enlist(j.value, from, state);
      EmitKeepsInv(w3, Send(w3.clients, from, SessionCreated(sid), None));
      Handled(Emit(w3, Send(w3.clients, from, SessionCreated(sid), None)), None)
  }

  /** `join-session`: an unknown id is answered with `session-error` and
      changes nothing else; a known one is joined (throwing if the client
      already has a session) and the client becomes alive with the state it
      sent. */
  function OnJoinSession(w: World, from: Id, sid: string, state: Option<State>): (r: Handled)
    requires Inv(w) && from in w.clients
    ensures Inv(r.world)
    ensures sid !in w.table ==>
              r.thrown == None && r.world == Emit(w, Send(w.clients, from, SessionError(SessionNotFound), None))
    ensures sid in w.table && w.clients[from].session.Some? ==> r == Handled(w, Some(AlreadyInSession))
    ensures sid in w.table && w.clients[from].session.None? ==>
              var ref := w.table[sid];
              && r.thrown == None
              && r.world.sessions == w.sessions[ref := w.sessions[ref].(members := w.sessions[ref].members + [from])]
              && r.world.clients.Keys == w.clients.Keys
              && r.world.clients[from] == w.clients[from].(session := Some(ref), isAlive := true, state := state)
              && (forall k | k in w.clients && k != from :: r.world.clients[k] == w.clients[k])
  {
    if sid !in w.table then
      EmitKeepsInv(w, Send(w.clients, from, SessionError(SessionNotFound), None));
      Handled(Emit(w, Send(w.clients, from, SessionError(SessionNotFound), None)), None)
    else
      var j := Join(w, w.table[sid], from);
      if j.Failure? then Handled(w, Some(j.error))
      else Handled(Enlist(j.value, from, state), None)
  }

  // ----------------------------------------------------------- start-game

  /** A lobby client taken for a match: out of the lobby, `inLobby` off,
      alive. */
  function Drafted(w: World, p: Id): (r: World)
    requires Inv(w) && p in w.clients
    ensures Inv(r)
    ensures r.lobby == Without(w.lobby, p)
    ensures r.clients == w.clients[p := w.clients[p].(inLobby := false, isAlive := true)]
    ensures r.(lobby := w.lobby, clients := w.clients) == w
  {
    WithoutKeepsNoDup(w.lobby, p);
    w.(lobby := Without(w.lobby, p), clients := w.clients[p := w.clients[p].(inLobby := false, isAlive := true)])
  }

  /** Replaces a client's replicated state. */
  function Restate(w: World, c: Id, state: Option<State>): (r: World)
    requires Inv(w) && c in w.clients
    ensures Inv(r)
    ensures r.clients == w.clients[c := w.clients[c].(state := state)]
    ensures r.(clients := w.clients) == w
  {
    UpdateClientKeepsInv(w, c, w.clients[c].(state := state));
    Put(w, c, w.clients[c].(state := state))
  }

  /** Rewriting the sender's state changes nothing about whom its broadcasts
      reach. */
  lemma RestateKeepsBroadcast(w: World, from: Id, st: Option<State>, msg: Msg)
    requires Inv(w) && from in w.clients && w.clients[from].session.Some?
    ensures Broadcast(Restate(w, from, st), from, msg) == Broadcast(w, from, msg)
  {
    var ref := w.clients[from].session.value;
    FanDependsOnlyOnOpen(Restate(w, from, st).clients, w.clients, w.sessions[ref].members, Some(from), _ => msg, Some(from));
  }

  /** One player of `start-game`: out of the lobby, `inLobby` off and alive,
      then the join (which throws for a client already in a session, after
      those three writes); then the starting state and `game-start`. */
  function StartOne(w: World, ref: SessionRef, sid: string, p: Id): (r: Handled)
    requires Inv(w) && ref in w.sessions && p in w.clients
    ensures Inv(r.world)
    ensures r.world.lobby == Without(w.lobby, p)
    ensures r.world.clients.Keys == w.clients.Keys
    ensures forall k | k in w.clients && k != p :: r.world.clients[k] == w.clients[k]
    ensures r.world.table == w.table && r.world.timers == w.timers && r.world.nextRef == w.nextRef
    ensures r.world.sessions.Keys == w.sessions.Keys
    ensures r.thrown.Some? <==> w.clients[p].session.Some?
    ensures r.thrown.Some? ==>
              && r.thrown == Some(AlreadyInSession)
              && r.world.clients[p] == w.clients[p].(inLobby := false, isAlive := true)
              && r.world.sessions == w.sessions && r.world.out == w.out
    ensures r.thrown.None? ==>
              && r.world.clients[p] == w.clients[p].(inLobby := false, isAlive := true, session := Some(ref), state := Some(StartState))
              && r.world.sessions == w.sessions[ref := w.sessions[ref].(members := w.sessions[ref].members + [p])]
  {
    var w1 := Drafted(w, p);
    var j := Join(w1, ref, p);
    if j.Failure? then Handled(w1, Some(j.error))
    else
      var w3 := Restate(j.value, p, Some(StartState));
      EmitKeepsInv(w3, Send(w3.clients, p, GameStart(sid), None));
      Handled(Emit(w3, Send(w3.clients, p, GameStart(sid), None)), None)
  }

  /** The two `StartOne` rounds of `start-game` on a fresh session: the
      first lobby client, then, unless that throws, the second. */
  function StartPair(w: World, sid: string): (r: Handled)
    requires Inv(w) && |w.lobby| >= 2
    ensures Inv(r.world)
    ensures r.thrown.Some? ==> r.thrown == Some(AlreadyInSession)
  {
    var ref := w.nextRef;
    var h0 := StartOne(NewSession(w, sid), ref, sid, w.lobby[0]);
    if h0.thrown.Some? then h0 else StartOne(h0.world, ref, sid, w.lobby[1])
  }

  function OnStartGame(w: World, from: Id, sid: string): (r: Handled)
    requires Inv(w) && from in w.clients
    ensures Inv(r.world)
    ensures |w.lobby| < 2 ==>
              r.thrown == None && r.world == Emit(w, Send(w.clients, from, ErrorReply(NotEnoughPlayers), None))
  {
    if |w.lobby| < 2 then
      EmitKeepsInv(w, Send(w.clients, from, ErrorReply(NotEnoughPlayers), None));
      Handled(Emit(w, Send(w.clients, from, ErrorReply(NotEnoughPlayers), None)), None)
    else
      var h := StartPair(w, sid);
      if h.thrown.Some? then h
      else
        EmitKeepsInv(h.world, LobbyStateFrames(h.world));
        Handled(Emit(h.world, LobbyStateFrames(h.world)), None)
  }


  // --------------------------------------------------------- state-update

  /** The guard of `state-update`: the sender is alive and has a state with a
      slot for the fragment. */
  predicate Accepts(c: Client, fragment: string) {
    c.isAlive && c.state.Some? && fragment in c.state.value
  }

  /** The garbage rule: a score update that reports at least two cleared
      lines. */
  predicate SendsGarbage(fragment: string, prop: string, linesCleared: Option<int>) {
    fragment == PlayerFragment && prop == ScoreProp && linesCleared.Some? && linesCleared.value >= 2
  }

  /** `state[fragment][prop] = value` on a state that has the fragment. */
  function Patch(st: State, fragment: string, prop: string, value: Value): (r: State)
    requires fragment in st
    ensures r.Keys == st.Keys
    ensures fragment in r && prop in r[fragment] && r[fragment][prop] == value
    ensures r[fragment].Keys == st[fragment].Keys + {prop}
    ensures forall q | q in st[fragment] && q != prop :: r[fragment][q] == st[fragment][q]
    ensures forall g | g in st && g != fragment :: r[g] == st[g]
  {
    st[fragment := st[fragment][prop := value]]
  }

  /** The frames an accepted update in a session sends: the garbage attack
      to the other members when the rule applies, then the relayed update. */
  function UpdateFrames(w: World, from: Id, fragment: string, prop: string, value: Value, linesCleared: Option<int>): seq<Frame>
    requires Inv(w) && from in w.clients && w.clients[from].session.Some?
  {
    (if SendsGarbage(fragment, prop, linesCleared)
     then Broadcast(w, from, GarbageAttack(linesCleared.value - 1, from)).value else [])
    + Broadcast(w, from, StateRelay(fragment, prop, value, linesCleared)).value
  }

  /** `state-update`: ignored unless the guard holds; otherwise the one
      property is written, then a `garbage-attack` of `linesCleared - 1` rows
      is broadcast when the garbage rule applies, then the update itself is
      relayed (each broadcast throws without a session). */
  function OnUpdate(w: World, from: Id, fragment: string, prop: string, value: Value, linesCleared: Option<int>): (r: Handled)
    requires Inv(w) && from in w.clients
    ensures Inv(r.world)
    ensures !Accepts(w.clients[from], fragment) ==> r == Handled(w, None)
    ensures Accepts(w.clients[from], fragment) ==>
              var st := w.clients[from].state.value;
              && r.world.clients == w.clients[from := w.clients[from].(state := Some(Patch(st, fragment, prop, value)))]
              && r.world.(out := w.out, clients := w.clients) == w
    ensures Accepts(w.clients[from], fragment) && w.clients[from].session.None? ==>
              r.thrown == Some(NoSession) && r.world.out == w.out
    ensures Accepts(w.clients[from], fragment) && w.clients[from].session.Some? ==>
              && r.thrown == None
              && r.world.out == w.out + UpdateFrames(w, from, fragment, prop, value, linesCleared)
  {
    var c := w.clients[from];
    if !Accepts(c, fragment) then Handled(w, None)
    else
      var w1 := Restate(w, from, Some(Patch(c.state.value, fragment, prop, value)));
      if c.session.None? then Handled(w1, Some(NoSession))
      else
        var relay := StateRelay(fragment, prop, value, linesCleared);
        RestateKeepsBroadcast(w, from, w1.clients[from].state, relay);
        var garbage := if SendsGarbage(fragment, prop, linesCleared) then
          var attack := GarbageAttack(linesCleared.value - 1, from);
          RestateKeepsBroadcast(w, from, w1.clients[from].state, attack);
          Broadcast(w1, from, attack).value
        else [];
        EmitKeepsInv(w1, garbage + Broadcast(w1, from, relay).value);
        Handled(Emit(w1, garbage + Broadcast(w1, from, relay).value), None)
  }

  // ---------------------------------------------------------- player-died

  /** Game over: every member (the dead included) is sent the winner's id,
      username and score, and the grace timer starts.  Reading the score
      throws when the winner has no state or no `player` fragment, before any
      frame is sent. */
  function Resolve(w: World, ref: SessionRef, winner: Id): (r: Handled)
    requires Inv(w) && ref in w.sessions && winner in w.clients
    ensures Inv(r.world)
    ensures ScoreOf(w.clients[winner]).None? ==> r == Handled(w, Some(MissingState))
    ensures ScoreOf(w.clients[winner]).Some? ==>
              var over := GameOver(winner, w.clients[winner].username, ScoreOf(w.clients[winner]).value);
              && r.thrown == None
              && r.world == w.(out := w.out + Fan(w.clients, w.sessions[ref].members, None, _ => over, None),
                               timers := w.timers + [ref])
  {
    match ScoreOf(w.clients[winner])
    case None => Handled(w, Some(MissingState))
    case Some(score) =>
      var over := GameOver(winner, w.clients[winner].username, score);
      Handled(w.(out := w.out + Fan(w.clients, w.sessions[ref].members, None, _ => over, None),
                 timers := w.timers + [ref]), None)
  }

  /** The members of session `ref` still alive. */
  function Alive(w: World, ref: SessionRef): (r: seq<Id>)
    requires Inv(w) && ref in w.sessions
    ensures NoDup(r)
    ensures forall x :: x in r <==> x in w.sessions[ref].members && w.clients[x].isAlive
  {
    AliveMembers(w.clients, w.sessions[ref].members)
  }

  /** `player-died`: the sender is no longer alive; in a session, exactly one
      member left alive ends the game, otherwise the death is broadcast to
      the other members. */
  function OnDied(w: World, from: Id): (r: Handled)
    requires Inv(w) && from in w.clients
    ensures Inv(r.world)
    ensures r.world.clients.Keys == w.clients.Keys
    ensures r.world.clients[from] == w.clients[from].(isAlive := false)
    ensures forall k | k in w.clients && k != from :: r.world.clients[k] == w.clients[k]
    ensures w.clients[from].session.None? ==>
              r == Handled(Put(w, from, w.clients[from].(isAlive := false)), None)
  {
    var dead := Put(w, from, w.clients[from].(isAlive := false));
    UpdateClientKeepsInv(w, from, w.clients[from].(isAlive := false));
    match w.clients[from].session
    case None => Handled(dead, None)
    case Some(ref) =>
      var alive := Alive(dead, ref);
      if |alive| == 1 then Resolve(dead, ref, alive[0])
      else
        var fs := Broadcast(dead, from, PlayerDied(from)).value;
        EmitKeepsInv(dead, fs);
        Handled(Emit(dead, fs), None)
  }

  // ---------------------------------------------------------------- close

  /** The lobby part of `close`: a client flagged `inLobby` and still in the
      lobby is taken out and the rest of the lobby is sent the new state. */
  function CloseLobby(w: World, c: Id): (r: World)
    requires Inv(w) && c in w.clients
    ensures Inv(r) && c !in r.lobby
    ensures r.clients == w.clients && r.sessions == w.sessions && r.table == w.table
    ensures r.timers == w.timers && r.nextRef == w.nextRef
    ensures c in w.lobby ==> r.lobby == Without(w.lobby, c) && r.out == w.out + LobbyStateFrames(r.(out := w.out))
    ensures c !in w.lobby ==> r == w
  {
    if w.clients[c].inLobby && c in w.lobby then
      WithoutKeepsNoDup(w.lobby, c);
      var w1 := w.(lobby := Without(w.lobby, c));
      EmitKeepsInv(w1, LobbyStateFrames(w1));
      Emit(w1, LobbyStateFrames(w1))
    else w
  }

  /** The alive part of `close`, after the leave: a client that was alive is
      marked dead and exactly one member left alive ends the game. */
  function CloseAlive(w: World, ref: SessionRef, c: Id): (r: Handled)
    requires Inv(w) && ref in w.sessions && c in w.clients
    ensures Inv(r.world)
    ensures r.world.clients.Keys == w.clients.Keys
    ensures r.world.clients[c] == w.clients[c].(isAlive := false)
    ensures forall k | k in w.clients && k != c :: r.world.clients[k] == w.clients[k]
    ensures r.world.sessions == w.sessions && r.world.lobby == w.lobby && r.world.table == w.table
    ensures |w.out| <= |r.world.out| && r.world.out[..|w.out|] == w.out
    ensures !w.clients[c].isAlive ==> r == Handled(w, None)
    ensures r.thrown.Some? ==>
              r.thrown == Some(MissingState) && r.world.out == w.out && r.world.timers == w.timers
  {
    if w.clients[c].isAlive then
      var dead := Put(w, c, w.clients[c].(isAlive := false));
      UpdateClientKeepsInv(w, c, w.clients[c].(isAlive := false));
      var alive := Alive(dead, ref);
      if |alive| == 1 then Resolve(dead, ref, alive[0]) else Handled(dead, None)
    else
      assert w.clients[c].(isAlive := false) == w.clients[c];
      Handled(w, None)
  }

  /** The session part of `close`: the client leaves, the alive part runs,
      and a session left with no members is deleted from the table under its
      id (unless reading the winner's score threw first). */
  function CloseSession(w: World, ref: SessionRef, c: Id): (r: Handled)
    requires Inv(w) && c in w.clients && w.clients[c].session == Some(ref)
    ensures Inv(r.world)
    ensures r.world.clients.Keys == w.clients.Keys
    ensures r.world.clients[c].session.None? && !r.world.clients[c].isAlive
    ensures forall k | k in w.clients && k != c :: r.world.clients[k] == w.clients[k]
    ensures r.world.sessions.Keys == w.sessions.Keys
    ensures ref in r.world.sessions && c !in r.world.sessions[ref].members
    ensures r.world.lobby == w.lobby
    ensures Leave(w, ref, c).Success?
    ensures var left := Leave(w, ref, c).value;
            && |left.out| <= |r.world.out| && r.world.out[..|left.out|] == left.out
            && (!w.clients[c].isAlive ==> r.thrown == None && r.world.out == left.out && r.world.timers == w.timers)
            && (r.thrown.Some? ==>
                  && r.thrown == Some(MissingState)
                  && r.world.out == left.out && r.world.timers == w.timers && r.world.table == w.table)
            && (r.thrown.None? ==>
                  r.world.table == if left.sessions[ref].members == [] then w.table - {w.sessions[ref].id} else w.table)
  {
    var left := Leave(w, ref, c).value;
    var h := CloseAlive(left, ref, c);
    if h.thrown.Some? then h
    else
      var d := DropIfEmpty(h.world, ref);
      Handled(d, None)
  }

  /** `if (session.clients.size === 0) sessions.delete(session.id)`. */
  function DropIfEmpty(w: World, ref: SessionRef): (r: World)
    requires Inv(w) && ref in w.sessions
    ensures Inv(r)
    ensures |w.sessions[ref].members| == 0 ==> r.table == w.table - {w.sessions[ref].id}
    ensures |w.sessions[ref].members| != 0 ==> r.table == w.table
    ensures r.(table := w.table) == w
    ensures r.clients == w.clients && r.sessions == w.sessions && r.lobby == w.lobby
    ensures r.out == w.out && r.timers == w.timers
  {
    if |w.sessions[ref].members| == 0 then w.(table := w.table - {w.sessions[ref].id}) else w
  }

  /** The closed client's record is dropped once it is in no session and not
      in the lobby. */
  function Forget(w: World, c: Id): (r: World)
    requires Inv(w) && c in w.clients && w.clients[c].session.None? && c !in w.lobby
    ensures Inv(r)
    ensures r.clients == w.clients - {c}
    ensures r.(clients := w.clients) == w
  {
    w.(clients := w.clients - {c})
  }

  /** `close`: the lobby part, then the session part, then the client is
      gone from the relay. */
  function OnClose(w: World, c: Id): (r: Handled)
    requires Inv(w) && c in w.clients
    ensures Inv(r.world)
    ensures r.world.clients.Keys == w.clients.Keys - {c}
    ensures c !in r.world.lobby
    ensures forall ref | ref in r.world.sessions :: c !in r.world.sessions[ref].members
    ensures forall k | k in w.clients && k != c :: r.world.clients[k] == w.clients[k]
    ensures w.clients[c].session.None? ==>
              r == Handled(Forget(CloseLobby(w, c), c), None)
  {
    var w1 := CloseLobby(w, c);
    match w.clients[c].session
    case None =>
      NoSessionNoMember(w1, c);
      Handled(Forget(w1, c), None)
    case Some(ref) =>
      var h := CloseSession(w1, ref, c);
      NoSessionNoMember(h.world, c);
      Handled(Forget(h.world, c), h.thrown)
  }

  // --------------------------------------------------------- timer, links

  /** The `return-to-lobby` frame of the grace timer, whoever it goes to. */
  function ReturnMsg(to: Id): Msg {
    ReturnToLobby
  }

  /** `session.clients.forEach(c => c.send({type: 'return-to-lobby'}))`. */
  function ReturnFrames(clients: map<Id, Client>, members: seq<Id>): seq<Frame> {
    Fan(clients, members, None, ReturnMsg, None)
  }

  /** The grace timer of a finished game: every member still in the session
      object is told to return to the lobby, and the session's id is deleted
      from the table (whatever session it names by now). */
  function OnTimer(w: World, i: nat): (r: Handled)
    requires Inv(w) && i < |w.timers|
    ensures Inv(r.world) && r.thrown == None
    ensures |r.world.timers| == |w.timers| - 1
    ensures r.world.timers == w.timers[..i] + w.timers[i + 1..]
    ensures r.world.table == w.table - {w.sessions[w.timers[i]].id}
    ensures r.world.clients == w.clients && r.world.sessions == w.sessions && r.world.lobby == w.lobby
    ensures r.world.out == w.out + ReturnFrames(w.clients, w.sessions[w.timers[i]].members)
  {
    var ref := w.timers[i];
    var fs := ReturnFrames(w.clients, w.sessions[ref].members);
    var w1 := w.(out := w.out + fs, table := w.table - {w.sessions[ref].id},
                 timers := w.timers[..i] + w.timers[i + 1..]);
    assert HandlesValid(w1) by {
      forall j | 0 <= j < |w1.timers| ensures w1.timers[j] in w1.sessions {
        if j < i { assert w1.timers[j] == w.timers[j]; }
        else { assert w1.timers[j] == w.timers[j + 1]; }
      }
    }
    Handled(w1, None)
  }

  /** A new connection: a fresh client record; an id already connected is
      left alone (ids are assumed unique among live connections). */
  function OnConnect(w: World, id: Id): (r: Handled)
    requires Inv(w)
    ensures Inv(r.world) && r.thrown == None
    ensures id !in w.clients ==> r.world == w.(clients := w.clients[id := NewClient(id)])
    ensures id in w.clients ==> r.world == w
  {
    if id in w.clients then Handled(w, None)
    else Handled(w.(clients := w.clients[id := NewClient(id)]), None)
  }

  /** The channel leaves the OPEN state ahead of its `close` event: frames to
      it are dropped from now on. */
  function OnDrop(w: World, id: Id): (r: Handled)
    requires Inv(w)
    ensures Inv(r.world) && r.thrown == None
    ensures r.world.clients.Keys == w.clients.Keys
    ensures id in w.clients ==> !r.world.clients[id].open
    ensures forall k | k in w.clients :: r.world.clients[k] == w.clients[k].(open := r.world.clients[k].open)
  {
    if id !in w.clients then Handled(w, None)
    else
      UpdateClientKeepsInv(w, id, w.clients[id].(open := false));
      Handled(Put(w, id, w.clients[id].(open := false)), None)
  }

  // ----------------------------------------------------------------- step

  /** What can happen to the relay: a connection is accepted, a frame
      arrives (with the fresh id `createId` would draw for it), a channel
      stops being OPEN, a connection closes, a pending grace timer fires. */
  datatype Event =
    | Connect(id: Id)
    | Receive(from: Id, req: Request, freshId: string)
    | Drop(who: Id)
    | Close(who: Id)
    | TimerFires(index: nat)

  /** The message switch: one handler per frame type; an unrecognised type is
      ignored. */
  function OnReceive(w: World, from: Id, req: Request, freshId: string): (r: Handled)
    requires Inv(w) && from in w.clients
    ensures Inv(r.world)
  {
    match req
    case JoinLobby(username, userId) => OnJoinLobby(w, from, username, userId)
    case Chat(message) => OnChat(w, from, message)
    case StartGame => OnStartGame(w, from, freshId)
    case CreateSession(state) => OnCreateSession(w, from, freshId, state)
    case JoinSession(sid, state) => OnJoinSession(w, from, sid, state)
    case Update(fragment, prop, value, linesCleared) => OnUpdate(w, from, fragment, prop, value, linesCleared)
    case Died => OnDied(w, from)
    case Unrecognised => Handled(w, None)
  }

  /** One event.  Events for clients that are not connected, and timers that
      are not pending, change nothing. */
  function Step(w: World, e: Event): (r: Handled)
    requires Inv(w)
    ensures Inv(r.world)
  {
    match e
    case Connect(id) => OnConnect(w, id)
    case Receive(from, req, freshId) => if from in w.clients then OnReceive(w, from, req, freshId) else Handled(w, None)
    case Drop(who) => OnDrop(w, who)
    case Close(who) => if who in w.clients then OnClose(w, who) else Handled(w, None)
    case TimerFires(i) => if i < |w.timers| then OnTimer(w, i) else Handled(w, None)
  }

  /** Runs a sequence of events; a throw only ends that handler, so the next
      event sees the world the throw left behind. */
  function Run(w: World, es: seq<Event>): (r: World)
    requires Inv(w)
    ensures Inv(r)
    decreases |es|
  {
    if es == [] then w else Run(Step(w, es[0]).world, es[1..])
  }
}
