/** Properties of the relay's handlers (server/server.js:113-299) that relate
    the frames they send to the world they start from. */
module RelayProps {
  import opened Wrappers
  import opened Wire
  import opened Seqs
  import opened RelayState
  import opened Connection
  import opened Membership
  import opened Relay

  lemma SentIs(w: World, r: World, fs: seq<Frame>)
    requires r.out == w.out + fs
    ensures |w.out| <= |r.out| && Sent(w, r) == fs
  {
  }

  // --------------------------------------------------------- state-update

  /** Someone other than the sender in its session can still be written to. */
  predicate HasOpenPeer(w: World, from: Id)
    requires Inv(w) && from in w.clients
  {
    exists t :: t in Peers(w, from) && t != from && t in w.clients && w.clients[t].open
  }

  /** The frames an accepted update in a session appends are exactly
      `UpdateFrames`. */
  lemma UpdateSent(w: World, from: Id, fragment: string, prop: string, value: Value, lc: Option<int>)
    requires Inv(w) && from in w.clients
    requires Accepts(w.clients[from], fragment) && w.clients[from].session.Some?
    ensures var r := OnUpdate(w, from, fragment, prop, value, lc);
            |w.out| <= |r.world.out| && Sent(w, r.world) == UpdateFrames(w, from, fragment, prop, value, lc)
  {
    SentIs(w, OnUpdate(w, from, fragment, prop, value, lc).world, UpdateFrames(w, from, fragment, prop, value, lc));
  }

  /** Whom the frames of an accepted update reach, and what they carry. */
  lemma UpdateFramesReach(w: World, from: Id, fragment: string, prop: string, value: Value, lc: Option<int>)
    requires Inv(w) && from in w.clients && w.clients[from].session.Some?
    ensures var fs := UpdateFrames(w, from, fragment, prop, value, lc);
            && (forall t :: CountTo(fs, t) ==
                  if t in Peers(w, from) && t != from && w.clients[t].open
                  then (if SendsGarbage(fragment, prop, lc) then 2 else 1) else 0)
            && (forall f | f in fs ::
                  && f.to != from && f.clientId == Some(from)
                  && (|| f.msg == StateRelay(fragment, prop, value, lc)
                      || (SendsGarbage(fragment, prop, lc) && f.msg == GarbageAttack(lc.value - 1, from))))
  {
    var relay := StateRelay(fragment, prop, value, lc);
    var rs := Broadcast(w, from, relay).value;
    BroadcastReachesEachPeerOnce(w, from, relay);
    if SendsGarbage(fragment, prop, lc) {
      var attack := GarbageAttack(lc.value - 1, from);
      var gs := Broadcast(w, from, attack).value;
      BroadcastReachesEachPeerOnce(w, from, attack);
      forall t ensures CountTo(gs + rs, t) == CountTo(gs, t) + CountTo(rs, t) {
        CountToConcat(gs, rs, t);
      }
    } else {
      assert UpdateFrames(w, from, fragment, prop, value, lc) == rs;
    }
  }

  /** An accepted update reaches every other open member of the sender's
      session, once with the update and, under the garbage rule, once more
      with the attack; never the sender; every frame carries the sender's id
      and is either the relayed update or the attack of `linesCleared - 1`
      rows. */
  lemma UpdateRelaysToPeersOnly(w: World, from: Id, fragment: string, prop: string, value: Value, lc: Option<int>)
    requires Inv(w) && from in w.clients
    requires Accepts(w.clients[from], fragment) && w.clients[from].session.Some?
    ensures var r := OnUpdate(w, from, fragment, prop, value, lc);
            && |w.out| <= |r.world.out|
            && (forall t :: CountTo(Sent(w, r.world), t) ==
                  if t in Peers(w, from) && t != from && w.clients[t].open
                  then (if SendsGarbage(fragment, prop, lc) then 2 else 1) else 0)
            && (forall f | f in Sent(w, r.world) ::
                  && f.to != from && f.clientId == Some(from)
                  && (|| f.msg == StateRelay(fragment, prop, value, lc)
                      || (SendsGarbage(fragment, prop, lc) && f.msg == GarbageAttack(lc.value - 1, from))))
  {
    UpdateSent(w, from, fragment, prop, value, lc);
    UpdateFramesReach(w, from, fragment, prop, value, lc);
  }

  /** The frames of an accepted update that carry the garbage attack. */
  lemma GarbageOnlyUnderRule(w: World, from: Id, fragment: string, prop: string, value: Value, lc: Option<int>)
    requires Inv(w) && from in w.clients
    requires Accepts(w.clients[from], fragment) && w.clients[from].session.Some?
    ensures var r := OnUpdate(w, from, fragment, prop, value, lc);
            && |w.out| <= |r.world.out|
            && forall f | f in Sent(w, r.world) && f.msg.GarbageAttack? ::
                 SendsGarbage(fragment, prop, lc) && HasOpenPeer(w, from)
  {
    UpdateSent(w, from, fragment, prop, value, lc);
    UpdateFramesReach(w, from, fragment, prop, value, lc);
    var fs := UpdateFrames(w, from, fragment, prop, value, lc);
    forall f | f in fs && f.msg.GarbageAttack?
      ensures SendsGarbage(fragment, prop, lc) && HasOpenPeer(w, from)
    {
      CountToMember(fs, f);
      assert f.to in Peers(w, from) && f.to != from && w.clients[f.to].open;
    }
  }


  /** A broadcast from a sender with an open peer sends at least one frame. */
  lemma BroadcastNotEmpty(w: World, from: Id, msg: Msg)
    requires Inv(w) && from in w.clients && w.clients[from].session.Some? && HasOpenPeer(w, from)
    ensures |Broadcast(w, from, msg).value| > 0
  {
    var t :| t in Peers(w, from) && t != from && t in w.clients && w.clients[t].open;
    BroadcastReachesEachPeerOnce(w, from, msg);
    CountedFrameExists(Broadcast(w, from, msg).value, t);
  }

  lemma GarbageSentUnderRule(w: World, from: Id, fragment: string, prop: string, value: Value, lc: Option<int>)
    requires Inv(w) && from in w.clients
    requires Accepts(w.clients[from], fragment) && w.clients[from].session.Some?
    requires SendsGarbage(fragment, prop, lc) && HasOpenPeer(w, from)
    ensures var r := OnUpdate(w, from, fragment, prop, value, lc);
            |w.out| <= |r.world.out| && exists f | f in Sent(w, r.world) :: f.msg.GarbageAttack?
  {
    UpdateSent(w, from, fragment, prop, value, lc);
    var attack := GarbageAttack(lc.value - 1, from);
    BroadcastNotEmpty(w, from, attack);
    var gs := Broadcast(w, from, attack).value;
    var fs := UpdateFrames(w, from, fragment, prop, value, lc);
    assert fs[0] == gs[0];
    assert fs[0] in fs;
  }

  /** A `garbage-attack` is among the frames of an accepted update iff the
      garbage rule applies and the sender has an open peer to send it to. */
  lemma GarbageIff(w: World, from: Id, fragment: string, prop: string, value: Value, lc: Option<int>)
    requires Inv(w) && from in w.clients
    requires Accepts(w.clients[from], fragment) && w.clients[from].session.Some?
    ensures var r := OnUpdate(w, from, fragment, prop, value, lc);
            && |w.out| <= |r.world.out|
            && ((exists f | f in Sent(w, r.world) :: f.msg.GarbageAttack?) <==>
                SendsGarbage(fragment, prop, lc) && HasOpenPeer(w, from))
  {
    var r := OnUpdate(w, from, fragment, prop, value, lc);
    UpdateRelaysToPeersOnly(w, from, fragment, prop, value, lc);
    if SendsGarbage(fragment, prop, lc) && HasOpenPeer(w, from) {
      GarbageSentUnderRule(w, from, fragment, prop, value, lc);
    }
    GarbageOnlyUnderRule(w, from, fragment, prop, value, lc);
  }

  /** The garbage quantity of a score update: `linesCleared - 1` rows, and
      none below two lines, so one line sends none, two send one and four
      send three. */
  lemma GarbageLines(w: World, from: Id, value: Value, n: int)
    requires Inv(w) && from in w.clients
    requires Accepts(w.clients[from], PlayerFragment) && w.clients[from].session.Some?
    ensures var r := OnUpdate(w, from, PlayerFragment, ScoreProp, value, Some(n));
            && |w.out| <= |r.world.out|
            && (forall f | f in Sent(w, r.world) && f.msg.GarbageAttack? :: n >= 2 && f.msg.lines == n - 1)
            && (n == 1 ==> forall f | f in Sent(w, r.world) :: !f.msg.GarbageAttack?)
            && (n == 2 ==> forall f | f in Sent(w, r.world) && f.msg.GarbageAttack? :: f.msg.lines == 1)
            && (n == 4 ==> forall f | f in Sent(w, r.world) && f.msg.GarbageAttack? :: f.msg.lines == 3)
  {
    UpdateRelaysToPeersOnly(w, from, PlayerFragment, ScoreProp, value, Some(n));
  }

  // ----------------------------------------------------------- start-game

  /** `start-game` with two or more lobby clients, neither of the first two
      already in a session: exactly those two leave the lobby and form a new
      session under the fresh id, in lobby order, both alive, out of the
      lobby, with the empty 20x12 arena and a score of 0; nothing is thrown
      and no other client changes. */
  lemma StartGamePairsFirstTwo(w: World, from: Id, sid: string)
    requires Inv(w) && from in w.clients && |w.lobby| >= 2
    requires w.clients[w.lobby[0]].session.None? && w.clients[w.lobby[1]].session.None?
    ensures var r := OnStartGame(w, from, sid);
            && r.thrown == None
            && r.world.lobby == w.lobby[2..]
            && r.world.table == w.table[sid := w.nextRef]
            && w.nextRef in r.world.sessions
            && r.world.sessions[w.nextRef] == Session(sid, [w.lobby[0], w.lobby[1]])
            && r.world.clients.Keys == w.clients.Keys
            && r.world.clients[w.lobby[0]] == w.clients[w.lobby[0]].(inLobby := false, isAlive := true, session := Some(w.nextRef), state := Some(StartState))
            && r.world.clients[w.lobby[1]] == w.clients[w.lobby[1]].(inLobby := false, isAlive := true, session := Some(w.nextRef), state := Some(StartState))
            && forall k | k in w.clients && k != w.lobby[0] && k != w.lobby[1] :: r.world.clients[k] == w.clients[k]
  {
    StartsBothPlayers(w, sid);
    StartsBothClients(w, sid);
  }

  /** The two `StartOne` rounds of `start-game`, before the lobby state is
      sent: neither throws, and they leave the lobby, table and session that
      `StartGamePairsFirstTwo` describes. */
  lemma StartsBothPlayers(w: World, sid: string)
    requires Inv(w) && |w.lobby| >= 2
    requires w.clients[w.lobby[0]].session.None? && w.clients[w.lobby[1]].session.None?
    ensures var ref := w.nextRef;
            var h0 := StartOne(NewSession(w, sid), ref, sid, w.lobby[0]);
            && h0.thrown == None
            && ref in h0.world.sessions && w.lobby[1] in h0.world.clients
            && var h1 := StartOne(h0.world, ref, sid, w.lobby[1]);
               && h1.thrown == None
               && h1.world.lobby == w.lobby[2..]
               && h1.world.table == w.table[sid := ref]
               && ref in h1.world.sessions
               && h1.world.sessions[ref] == Session(sid, [w.lobby[0], w.lobby[1]])
  {
    var p0 := w.lobby[0];
    var p1 := w.lobby[1];
    var ref := w.nextRef;
    StartsFirstPlayer(w, sid);
    var h0 := StartOne(NewSession(w, sid), ref, sid, p0);
    assert h0.world.lobby[0] == p1;
    StartsLobbyHead(h0.world, ref, sid);
    assert w.lobby[1..][1..] == w.lobby[2..];
    PairOfSingletons(p0, p1);
  }

  /** The first `StartOne` round of `start-game`: the new session holds the
      first lobby client alone and the second is untouched. */
  lemma StartsFirstPlayer(w: World, sid: string)
    requires Inv(w) && |w.lobby| >= 2
    requires w.clients[w.lobby[0]].session.None?
    ensures var ref := w.nextRef;
            var h0 := StartOne(NewSession(w, sid), ref, sid, w.lobby[0]);
            && h0.thrown == None
            && ref in h0.world.sessions
            && h0.world.sessions[ref] == Session(sid, [w.lobby[0]])
            && h0.world.lobby == w.lobby[1..]
            && h0.world.table == w.table[sid := ref]
            && w.lobby[1] in h0.world.clients && h0.world.clients[w.lobby[1]] == w.clients[w.lobby[1]]
  {
    var w1 := NewSession(w, sid);
    StartsLobbyHead(w1, w.nextRef, sid);
    OntoEmpty(w1.sessions[w.nextRef].members, w.lobby[0]);
    FirstTwoDiffer(w);
  }

  /** The clients after the two `StartOne` rounds: the two players drafted
      into the new session with the starting state, everyone else as before. */
  lemma StartsBothClients(w: World, sid: string)
    requires Inv(w) && |w.lobby| >= 2
    requires w.clients[w.lobby[0]].session.None? && w.clients[w.lobby[1]].session.None?
    ensures var ref := w.nextRef;
            var h0 := StartOne(NewSession(w, sid), ref, sid, w.lobby[0]);
            ref in h0.world.sessions && w.lobby[1] in h0.world.clients &&
            var h1 := StartOne(h0.world, ref, sid, w.lobby[1]);
            && h1.world.clients.Keys == w.clients.Keys
            && h1.world.clients[w.lobby[0]] == w.clients[w.lobby[0]].(inLobby := false, isAlive := true, session := Some(ref), state := Some(StartState))
            && h1.world.clients[w.lobby[1]] == w.clients[w.lobby[1]].(inLobby := false, isAlive := true, session := Some(ref), state := Some(StartState))
            && forall k | k in w.clients && k != w.lobby[0] && k != w.lobby[1] :: h1.world.clients[k] == w.clients[k]
  {
    var p0 := w.lobby[0];
    var p1 := w.lobby[1];
    var ref := w.nextRef;
    var w1 := NewSession(w, sid);
    StartsLobbyHead(w1, ref, sid);
    var h0 := StartOne(w1, ref, sid, p0);
    FirstTwoDiffer(w);
    assert h0.world.clients[p1] == w.clients[p1];
    var h1 := StartOne(h0.world, ref, sid, p1);
    forall k | k in w.clients && k != p0 && k != p1 ensures h1.world.clients[k] == w.clients[k] {
      assert h0.world.clients[k] == w.clients[k];
    }
  }

  lemma FirstTwoDiffer(w: World)
    requires Inv(w) && |w.lobby| >= 2
    ensures w.lobby[0] != w.lobby[1]
  {
    NoDupTail(w.lobby);
    assert w.lobby[1] == w.lobby[1..][0];
  }

  /** Starting the client at the head of the lobby, when it has no session:
      nothing is thrown, it leaves the lobby and is added last to the
      session's members. */
  lemma StartsLobbyHead(w: World, ref: SessionRef, sid: string)
    requires Inv(w) && ref in w.sessions && |w.lobby| > 0 && w.clients[w.lobby[0]].session.None?
    ensures var h := StartOne(w, ref, sid, w.lobby[0]);
            && h.thrown == None
            && h.world.lobby == w.lobby[1..]
            && h.world.sessions[ref].members == w.sessions[ref].members + [w.lobby[0]]
  {
    WithoutHead(w.lobby);
  }

  // ---------------------------------------------------------- player-died

  /** Once `from` is dead, `x` is the only member of session `ref` alive. */
  predicate LastAlive(w: World, ref: SessionRef, from: Id, x: Id)
    requires Inv(w) && ref in w.sessions
  {
    && x in w.sessions[ref].members && x != from && w.clients[x].isAlive
    && forall y | y in w.sessions[ref].members && y != from && w.clients[y].isAlive :: y == x
  }

  /** The resolution test `alivePlayers.length === 1` picks `x` iff `x` is
      the last one alive once `from` is dead. */
  lemma AliveAfterDeath(w: World, ref: SessionRef, from: Id, x: Id)
    requires Inv(w) && ref in w.sessions && from in w.clients
    ensures var dead := Put(w, from, w.clients[from].(isAlive := false));
            Inv(dead) && ref in dead.sessions &&
            (Alive(dead, ref) == [x] <==> LastAlive(w, ref, from, x))
  {
    var dead := Put(w, from, w.clients[from].(isAlive := false));
    UpdateClientKeepsInv(w, from, w.clients[from].(isAlive := false));
    SingletonIff(Alive(dead, ref), x);
  }

  lemma AliveOneIsLastAlive(w: World, ref: SessionRef, from: Id)
    requires Inv(w) && ref in w.sessions && from in w.clients
    ensures var dead := Put(w, from, w.clients[from].(isAlive := false));
            Inv(dead) && ref in dead.sessions &&
            (|Alive(dead, ref)| == 1 ==> LastAlive(w, ref, from, Alive(dead, ref)[0]))
  {
    var dead := Put(w, from, w.clients[from].(isAlive := false));
    UpdateClientKeepsInv(w, from, w.clients[from].(isAlive := false));
    if |Alive(dead, ref)| == 1 {
      AliveAfterDeath(w, ref, from, Alive(dead, ref)[0]);
      assert Alive(dead, ref) == [Alive(dead, ref)[0]];
    }
  }

  /** `player-died` with a last survivor `x`: every open member, the dead
      sender included, is sent one `game-over` naming `x`, and one grace
      timer starts; or, when `x` has no `state.player`, the handler throws
      having sent nothing. */
  lemma DiedWithLastAlive(w: World, from: Id, x: Id)
    requires Inv(w) && from in w.clients && w.clients[from].session.Some?
    requires LastAlive(w, w.clients[from].session.value, from, x)
    ensures var r := OnDied(w, from);
            var ref := w.clients[from].session.value;
            && (ScoreOf(w.clients[x]).None? ==>
                  r.thrown == Some(MissingState) && r.world.out == w.out && r.world.timers == w.timers)
            && (ScoreOf(w.clients[x]).Some? ==>
                  && r.thrown == None && r.world.timers == w.timers + [ref]
                  && |w.out| <= |r.world.out|
                  && (forall t :: CountTo(Sent(w, r.world), t) ==
                        if t in w.sessions[ref].members && w.clients[t].open then 1 else 0)
                  && (forall f | f in Sent(w, r.world) ::
                        f.msg == GameOver(x, w.clients[x].username, ScoreOf(w.clients[x]).value)))
  {
    var ref := w.clients[from].session.value;
    var dead := Put(w, from, w.clients[from].(isAlive := false));
    DiedResolves(w, from, x);
    assert dead.clients[x] == w.clients[x];
    var r := OnDied(w, from);
    if ScoreOf(w.clients[x]).Some? {
      var over := GameOver(x, w.clients[x].username, ScoreOf(w.clients[x]).value);
      var members := w.sessions[ref].members;
      FanDependsOnlyOnOpen(dead.clients, w.clients, members, None, _ => over, None);
      FanReachesEachOnce(w.clients, members, None, _ => over, None);
      SentIs(w, r.world, Fan(w.clients, members, None, _ => over, None));
    }
  }

  /** With `x` the last one alive, `player-died` is the resolution in favour
      of `x` on the world where the sender is dead. */
  lemma DiedResolves(w: World, from: Id, x: Id)
    requires Inv(w) && from in w.clients && w.clients[from].session.Some?
    requires LastAlive(w, w.clients[from].session.value, from, x)
    ensures var dead := Put(w, from, w.clients[from].(isAlive := false));
            && Inv(dead) && w.clients[from].session.value in dead.sessions && x in dead.clients
            && OnDied(w, from) == Resolve(dead, w.clients[from].session.value, x)
  {
    var ref := w.clients[from].session.value;
    AliveAfterDeath(w, ref, from, x);
  }

  /** `player-died` without a single survivor (none, or several): no game
      ends; the death is broadcast to every other open member once, stamped
      with the sender's id, and no timer starts. */
  lemma DiedWithoutLastAlive(w: World, from: Id)
    requires Inv(w) && from in w.clients && w.clients[from].session.Some?
    requires forall x :: !LastAlive(w, w.clients[from].session.value, from, x)
    ensures var r := OnDied(w, from);
            && r.thrown == None && r.world.timers == w.timers
            && |w.out| <= |r.world.out|
            && (forall t :: CountTo(Sent(w, r.world), t) ==
                  if t in Peers(w, from) && t != from && w.clients[t].open then 1 else 0)
            && (forall f | f in Sent(w, r.world) :: f.msg == PlayerDied(from) && f.clientId == Some(from))
  {
    var ref := w.clients[from].session.value;
    var dead := Put(w, from, w.clients[from].(isAlive := false));
    UpdateClientKeepsInv(w, from, w.clients[from].(isAlive := false));
    AliveOneIsLastAlive(w, ref, from);
    var r := OnDied(w, from);
    var fs := Broadcast(dead, from, PlayerDied(from)).value;
    BroadcastReachesEachPeerOnce(dead, from, PlayerDied(from));
    SentIs(w, r.world, fs);
  }

  /** The unguarded case: a `player-died` from a client that is already dead
      still runs the resolution, so with one survivor left a second
      `game-over` round is sent and a second grace timer starts. */
  lemma RepeatedDeathReResolves(w: World, from: Id, x: Id)
    requires Inv(w) && from in w.clients && w.clients[from].session.Some?
    requires !w.clients[from].isAlive
    requires LastAlive(w, w.clients[from].session.value, from, x) && ScoreOf(w.clients[x]).Some?
    ensures var r := OnDied(w, from);
            && r.world.timers == w.timers + [w.clients[from].session.value]
            && r.world == w.(out := r.world.out, timers := r.world.timers)
            && |w.out| <= |r.world.out|
            && forall t | t in Peers(w, from) && w.clients[t].open ::
                 exists f | f in Sent(w, r.world) :: f.to == t && f.msg.GameOver?
  {
    var r := OnDied(w, from);
    DiedWithLastAlive(w, from, x);
    DiedResolves(w, from, x);
    assert w.clients[from].(isAlive := false) == w.clients[from];
    PutSame(w.clients, from);
    forall t | t in Peers(w, from) && w.clients[t].open
      ensures exists f | f in Sent(w, r.world) :: f.to == t && f.msg.GameOver?
    {
      CountedFrameExists(Sent(w, r.world), t);
      var i :| 0 <= i < |Sent(w, r.world)| && Sent(w, r.world)[i].to == t;
      assert Sent(w, r.world)[i] in Sent(w, r.world);
    }
  }

  // ---------------------------------------------------------------- close

  /** Between two worlds only frames were appended, and none of them is a
      `game-over`. */
  predicate NoGameOverSince(a: World, b: World) {
    a.out <= b.out && forall i | |a.out| <= i < |b.out| :: !b.out[i].msg.GameOver?
  }

  lemma NoGameOverTrans(a: World, b: World, c: World)
    requires NoGameOverSince(a, b) && NoGameOverSince(b, c)
    ensures NoGameOverSince(a, c)
  {
    forall i | |a.out| <= i < |c.out| ensures !c.out[i].msg.GameOver? {
      if i < |b.out| {
        assert c.out[i] == b.out[i];
      }
    }
  }

  lemma AppendedNoGameOver(a: World, b: World, fs: seq<Frame>)
    requires b.out == a.out + fs && forall f | f in fs :: !f.msg.GameOver?
    ensures NoGameOverSince(a, b)
  {
    forall i | |a.out| <= i < |b.out| ensures !b.out[i].msg.GameOver? {
      assert b.out[i] == fs[i - |a.out|];
    }
  }

  /** The lobby part of `close` sends only lobby states. */
  lemma CloseLobbyNoGameOver(w: World, c: Id)
    requires Inv(w) && c in w.clients
    ensures NoGameOverSince(w, CloseLobby(w, c))
  {
    var r := CloseLobby(w, c);
    if c in w.lobby {
      LobbyStateReachesEachOnce(r.(out := w.out));
      AppendedNoGameOver(w, r, LobbyStateFrames(r.(out := w.out)));
    } else {
      AppendedNoGameOver(w, r, []);
    }
  }

  /** The session part of `close` for a client that is no longer alive: it
      leaves, the remaining members get the roster, and that is all: no game
      ends and no timer starts. */
  lemma CloseSessionOfDeadNoGameOver(w: World, ref: SessionRef, c: Id)
    requires Inv(w) && c in w.clients && w.clients[c].session == Some(ref) && !w.clients[c].isAlive
    ensures var r := CloseSession(w, ref, c);
            r.thrown == None && r.world.timers == w.timers && NoGameOverSince(w, r.world)
  {
    var left := Leave(w, ref, c).value;
    var fs := RosterFrames(left.clients, left.sessions[ref].members);
    RosterReachesEachMemberOnce(left.clients, left.sessions[ref].members);
    AppendedNoGameOver(w, CloseSession(w, ref, c).world, fs);
  }

  /** A `close` from a client that was already not alive never sends
      `game-over` and never starts a grace timer. */
  lemma CloseAfterDeathNoGameOver(w: World, c: Id)
    requires Inv(w) && c in w.clients && !w.clients[c].isAlive
    ensures var r := OnClose(w, c);
            r.thrown == None && r.world.timers == w.timers && NoGameOverSince(w, r.world)
  {
    var w1 := CloseLobby(w, c);
    CloseLobbyNoGameOver(w, c);
    match w.clients[c].session
    case None =>
    case Some(ref) =>
      var h := CloseSession(w1, ref, c);
      CloseSessionOfDeadNoGameOver(w1, ref, c);
      NoGameOverTrans(w, w1, h.world);
      assert OnClose(w, c).world.out == h.world.out;
  }

  /** Leaving the session does not change who is left alive besides the
      one who leaves. */
  lemma LastAliveAfterLeave(w: World, ref: SessionRef, c: Id, x: Id)
    requires Inv(w) && c in w.clients && w.clients[c].session == Some(ref)
    ensures ref in Leave(w, ref, c).value.sessions
    ensures LastAlive(Leave(w, ref, c).value, ref, c, x) <==> LastAlive(w, ref, c, x)
  {
    var left := Leave(w, ref, c).value;
    assert forall y | y != c :: (y in left.sessions[ref].members <==> y in w.sessions[ref].members);
    assert forall y | y in w.clients :: left.clients[y].isAlive == w.clients[y].isAlive;
  }

  /** With `x` the last one alive once the alive closer `c` is dead, the
      session part of `close` is the resolution in favour of `x`: `x` stays a
      member, so the session is not dropped from the table. */
  lemma CloseSessionResolves(w: World, ref: SessionRef, c: Id, x: Id)
    requires Inv(w) && c in w.clients && w.clients[c].session == Some(ref) && w.clients[c].isAlive
    requires LastAlive(w, ref, c, x)
    ensures var left := Leave(w, ref, c).value;
            var dead := Put(left, c, left.clients[c].(isAlive := false));
            && Inv(dead) && ref in dead.sessions && x in dead.clients
            && CloseSession(w, ref, c) == Resolve(dead, ref, x)
  {
    var left := Leave(w, ref, c).value;
    LastAliveAfterLeave(w, ref, c, x);
    AliveAfterDeath(left, ref, c, x);
    assert x in left.sessions[ref].members;
  }

  /** `close` from an alive client with one other member `x` left alive:
      after the lobby and roster frames, every open remaining member is sent
      one `game-over` naming `x` and one grace timer starts; or, when `x` has
      no `state.player`, the handler throws having sent nothing more. The
      session stays in the table either way. */
  lemma CloseWithLastAlive(w: World, c: Id, x: Id)
    requires Inv(w) && c in w.clients && w.clients[c].session.Some? && w.clients[c].isAlive
    requires LastAlive(w, w.clients[c].session.value, c, x)
    ensures var ref := w.clients[c].session.value;
            var r := OnClose(w, c);
            var left := Leave(CloseLobby(w, c), ref, c).value;
            && |left.out| <= |r.world.out| && r.world.table == w.table
            && (ScoreOf(w.clients[x]).None? ==>
                  r.thrown == Some(MissingState) && r.world.out == left.out && r.world.timers == w.timers)
            && (ScoreOf(w.clients[x]).Some? ==>
                  && r.thrown == None && r.world.timers == w.timers + [ref]
                  && (forall t :: CountTo(Sent(left, r.world), t) ==
                        if t in w.sessions[ref].members && t != c && w.clients[t].open then 1 else 0)
                  && (forall f | f in Sent(left, r.world) ::
                        f.msg == GameOver(x, w.clients[x].username, ScoreOf(w.clients[x]).value)
                        && f.clientId == None))
  {
    var ref := w.clients[c].session.value;
    var w1 := CloseLobby(w, c);
    var left := Leave(w1, ref, c).value;
    var dead := Put(left, c, left.clients[c].(isAlive := false));
    CloseSessionResolves(w1, ref, c, x);
    assert dead.clients[x] == w.clients[x];
    var r := OnClose(w, c);
    if ScoreOf(w.clients[x]).Some? {
      var over := GameOver(x, w.clients[x].username, ScoreOf(w.clients[x]).value);
      var members := left.sessions[ref].members;
      WithoutKeepsNoDup(w.sessions[ref].members, c);
      FanDependsOnlyOnOpen(dead.clients, w.clients, members, None, _ => over, None);
      FanReachesEachOnce(w.clients, members, None, _ => over, None);
      SentIs(left, r.world, Fan(w.clients, members, None, _ => over, None));
    }
  }

  /** Without a single member left alive, the alive part of `close` only
      marks the closer dead. */
  lemma CloseAliveWithoutLastAlive(w: World, ref: SessionRef, c: Id)
    requires Inv(w) && ref in w.sessions && c in w.clients && w.clients[c].isAlive
    requires forall x :: !LastAlive(w, ref, c, x)
    ensures CloseAlive(w, ref, c) == Handled(Put(w, c, w.clients[c].(isAlive := false)), None)
  {
    AliveOneIsLastAlive(w, ref, c);
  }

  /** The session part of `close` for an alive client that leaves no single
      member alive: the roster goes out, nothing ends, and the session is
      dropped from the table when no one is left in it. */
  lemma CloseSessionWithoutLastAlive(w: World, ref: SessionRef, c: Id)
    requires Inv(w) && c in w.clients && w.clients[c].session == Some(ref) && w.clients[c].isAlive
    requires forall x :: !LastAlive(w, ref, c, x)
    ensures var r := CloseSession(w, ref, c);
            && r.thrown == None && r.world.timers == w.timers && NoGameOverSince(w, r.world)
            && r.world.table ==
                 if Without(w.sessions[ref].members, c) == [] then w.table - {w.sessions[ref].id} else w.table
  {
    var left := Leave(w, ref, c).value;
    forall x ensures !LastAlive(left, ref, c, x) {
      LastAliveAfterLeave(w, ref, c, x);
    }
    CloseAliveWithoutLastAlive(left, ref, c);
    var fs := RosterFrames(left.clients, left.sessions[ref].members);
    WithoutKeepsNoDup(w.sessions[ref].members, c);
    RosterReachesEachMemberOnce(left.clients, left.sessions[ref].members);
    AppendedNoGameOver(w, CloseSession(w, ref, c).world, fs);
  }

  /** `close` from an alive client that leaves no single member alive (none,
      or several): the lobby and the remaining members are told, no game
      ends, no timer starts, and the session is dropped from the table when
      no one is left in it. */
  lemma CloseWithoutLastAlive(w: World, c: Id)
    requires Inv(w) && c in w.clients && w.clients[c].session.Some? && w.clients[c].isAlive
    requires forall x :: !LastAlive(w, w.clients[c].session.value, c, x)
    ensures var ref := w.clients[c].session.value;
            var r := OnClose(w, c);
            && r.thrown == None && r.world.timers == w.timers && NoGameOverSince(w, r.world)
            && r.world.table ==
                 if Without(w.sessions[ref].members, c) == [] then w.table - {w.sessions[ref].id} else w.table
  {
    var ref := w.clients[c].session.value;
    var w1 := CloseLobby(w, c);
    assert forall x :: LastAlive(w1, ref, c, x) == LastAlive(w, ref, c, x);
    var h := CloseSession(w1, ref, c);
    CloseSessionWithoutLastAlive(w1, ref, c);
    CloseLobbyNoGameOver(w, c);
    NoGameOverTrans(w, w1, h.world);
    assert OnClose(w, c).world.out == h.world.out;
  }

  /** A `close` that takes the last member out of a session deletes the
      session's id from the table without throwing, whether or not the client
      was alive: no one is left to win. */
  lemma CloseLastMemberDropsId(w: World, c: Id)
    requires Inv(w) && c in w.clients && w.clients[c].session.Some?
    requires w.sessions[w.clients[c].session.value].members == [c]
    ensures var r := OnClose(w, c);
            && r.thrown == None && r.world.timers == w.timers
            && w.sessions[w.clients[c].session.value].id !in r.world.table
  {
    var ref := w.clients[c].session.value;
    var w1 := CloseLobby(w, c);
    var left := Leave(w1, ref, c).value;
    assert left.sessions[ref].members == Without([c], c) == [];
    if left.clients[c].isAlive {
      var dead := Put(left, c, left.clients[c].(isAlive := false));
      UpdateClientKeepsInv(left, c, left.clients[c].(isAlive := false));
      assert Alive(dead, ref) == [];
    }
  }

  /** The grace timer sends every open member still listed in the session
      exactly one `return-to-lobby`, and nothing else. */
  lemma TimerReturnsEachMemberOnce(w: World, i: nat)
    requires Inv(w) && i < |w.timers|
    ensures var r := OnTimer(w, i);
            var members := w.sessions[w.timers[i]].members;
            && |w.out| <= |r.world.out|
            && (forall t :: CountTo(Sent(w, r.world), t) == if t in members && w.clients[t].open then 1 else 0)
            && (forall f | f in Sent(w, r.world) :: f.msg == ReturnToLobby && f.clientId == None)
  {
    var members := w.sessions[w.timers[i]].members;
    var fs := ReturnFrames(w.clients, members);
    FanReachesEachOnce(w.clients, members, None, ReturnMsg, None);
    SentIs(w, OnTimer(w, i).world, fs);
    forall f | f in fs ensures f.msg == ReturnToLobby && f.clientId == None {
      var k :| 0 <= k < |fs| && fs[k] == f;
    }
  }

  /** The grace timer of a session whose id is already gone from the table
      and that has no members left: its delete changes nothing and nothing is
      sent. */
  lemma TimerAfterRemovalIsHarmless(w: World, i: nat)
    requires Inv(w) && i < |w.timers|
    requires w.sessions[w.timers[i]].members == [] && w.sessions[w.timers[i]].id !in w.table
    ensures var r := OnTimer(w, i);
            r.world.table == w.table && r.world.out == w.out && r.world.clients == w.clients
  {
    var r := OnTimer(w, i);
    assert w.table - {w.sessions[w.timers[i]].id} == w.table;
  }

  /** A game already resolved (its grace timer pending) whose last member then
      closes: the close deletes the id, and the timer firing later deletes
      nothing more and sends nothing. */
  lemma CloseThenTimer(w: World, c: Id, i: nat)
    requires Inv(w) && c in w.clients && w.clients[c].session.Some?
    requires w.sessions[w.clients[c].session.value].members == [c]
    requires i < |w.timers| && w.timers[i] == w.clients[c].session.value
    ensures var w1 := OnClose(w, c).world;
            && i < |w1.timers|
            && OnTimer(w1, i).world.table == w1.table
            && OnTimer(w1, i).world.out == w1.out
  {
    var ref := w.clients[c].session.value;
    CloseLastMemberDropsId(w, c);
    var w1 := OnClose(w, c).world;
    TimerAfterRemovalIsHarmless(w1, i);
  }

  // -------------------------------------------------------- join-session

  /** `join-session` joins before it assigns the state the frame carried, so
      the roster every member receives lists the joiner with the state it had
      before; the state sent is in place only afterwards. */
  lemma JoinRosterCarriesPriorState(w: World, from: Id, sid: string, state: Option<State>)
    requires Inv(w) && from in w.clients && sid in w.table && w.clients[from].session.None?
    ensures var r := OnJoinSession(w, from, sid, state);
            && |w.out| <= |r.world.out|
            && r.world.clients[from].state == state
            && forall f | f in Sent(w, r.world) ::
                 f.msg.SessionBroadcast? && RosterEntry(from, w.clients[from].state) in f.msg.clients
  {
    var ref := w.table[sid];
    var w2 := Join(w, ref, from).value;
    var members := w2.sessions[ref].members;
    RosterReachesEachMemberOnce(w2.clients, members);
    var roster := Roster(w2.clients, members);
    assert members[|members| - 1] == from;
    assert roster[|members| - 1] == RosterEntry(from, w.clients[from].state);
    SentIs(w, OnJoinSession(w, from, sid, state).world, RosterFrames(w2.clients, members));
  }

  // ------------------------------------------------------ alive => session

  /** A client that is alive is in a session: `isAlive` is set only together
      with a successful join, or, in `start-game`, just before a join that
      can fail only for a client already in a session. */
  predicate AliveInSession(w: World) {
    forall k | k in w.clients && w.clients[k].isAlive :: w.clients[k].session.Some?
  }

  lemma StartOneKeepsAliveInSession(w: World, ref: SessionRef, sid: string, p: Id)
    requires Inv(w) && ref in w.sessions && p in w.clients && AliveInSession(w)
    ensures AliveInSession(StartOne(w, ref, sid, p).world)
  {
    var r := StartOne(w, ref, sid, p);
    forall k | k in r.world.clients && r.world.clients[k].isAlive
      ensures r.world.clients[k].session.Some?
    {
      if k != p {
        assert r.world.clients[k] == w.clients[k];
      }
    }
  }

  lemma StartGameKeepsAliveInSession(w: World, from: Id, sid: string)
    requires Inv(w) && from in w.clients && AliveInSession(w)
    ensures AliveInSession(OnStartGame(w, from, sid).world)
  {
    if |w.lobby| >= 2 {
      StartGameClients(w, from, sid);
      var w1 := NewSession(w, sid);
      StartOneKeepsAliveInSession(w1, w.nextRef, sid, w.lobby[0]);
      var h0 := StartOne(w1, w.nextRef, sid, w.lobby[0]);
      if h0.thrown.None? {
        StartOneKeepsAliveInSession(h0.world, w.nextRef, sid, w.lobby[1]);
      }
    }
  }

  /** With two or more in the lobby, `start-game` leaves the clients of its
      two `StartOne` rounds: the lobby state it sends changes no client. */
  lemma StartGameClients(w: World, from: Id, sid: string)
    requires Inv(w) && from in w.clients && |w.lobby| >= 2
    ensures OnStartGame(w, from, sid).world.clients == StartPair(w, sid).world.clients
  {
  }

  lemma CreateSessionKeepsAliveInSession(w: World, from: Id, sid: string, state: Option<State>)
    requires Inv(w) && from in w.clients && AliveInSession(w)
    ensures AliveInSession(OnCreateSession(w, from, sid, state).world)
  {
  }

  lemma JoinSessionKeepsAliveInSession(w: World, from: Id, sid: string, state: Option<State>)
    requires Inv(w) && from in w.clients && AliveInSession(w)
    ensures AliveInSession(OnJoinSession(w, from, sid, state).world)
  {
  }

  lemma ReceiveKeepsAliveInSession(w: World, from: Id, req: Request, freshId: string)
    requires Inv(w) && from in w.clients && AliveInSession(w)
    ensures AliveInSession(OnReceive(w, from, req, freshId).world)
  {
    match req
    case StartGame => StartGameKeepsAliveInSession(w, from, freshId);
    case CreateSession(state) => CreateSessionKeepsAliveInSession(w, from, freshId, state);
    case JoinSession(sid, state) => JoinSessionKeepsAliveInSession(w, from, sid, state);
    case JoinLobby(username, userId) => JoinLobbyKeepsAliveInSession(w, from, username, userId);
    case Update(fragment, prop, value, linesCleared) =>
      UpdateKeepsAliveInSession(w, from, fragment, prop, value, linesCleared);
    case Died => DiedKeepsAliveInSession(w, from);
    case _ =>
  }

  lemma JoinLobbyKeepsAliveInSession(w: World, from: Id, username: Value, userId: Value)
    requires Inv(w) && from in w.clients && AliveInSession(w)
    ensures AliveInSession(OnJoinLobby(w, from, username, userId).world)
  {
  }

  lemma UpdateKeepsAliveInSession(w: World, from: Id, fragment: string, prop: string, value: Value,
                                  linesCleared: Option<int>)
    requires Inv(w) && from in w.clients && AliveInSession(w)
    ensures AliveInSession(OnUpdate(w, from, fragment, prop, value, linesCleared).world)
  {
  }

  lemma DiedKeepsAliveInSession(w: World, from: Id)
    requires Inv(w) && from in w.clients && AliveInSession(w)
    ensures AliveInSession(OnDied(w, from).world)
  {
  }

  /** Every event keeps alive clients in sessions. */
  lemma StepKeepsAliveInSession(w: World, e: Event)
    requires Inv(w) && AliveInSession(w)
    ensures AliveInSession(Step(w, e).world)
  {
    match e
    case Connect(id) => ConnectKeepsAliveInSession(w, id);
    case Receive(from, req, freshId) =>
      if from in w.clients {
        ReceiveKeepsAliveInSession(w, from, req, freshId);
      }
    case Drop(who) => DropKeepsAliveInSession(w, who);
    case Close(who) =>
      if who in w.clients {
        CloseKeepsAliveInSession(w, who);
      }
    case TimerFires(i) =>
      if i < |w.timers| {
        TimerKeepsAliveInSession(w, i);
      }
  }

  lemma ConnectKeepsAliveInSession(w: World, id: Id)
    requires Inv(w) && AliveInSession(w)
    ensures AliveInSession(OnConnect(w, id).world)
  {
  }

  lemma DropKeepsAliveInSession(w: World, id: Id)
    requires Inv(w) && AliveInSession(w)
    ensures AliveInSession(OnDrop(w, id).world)
  {
  }

  lemma CloseKeepsAliveInSession(w: World, c: Id)
    requires Inv(w) && c in w.clients && AliveInSession(w)
    ensures AliveInSession(OnClose(w, c).world)
  {
  }

  lemma TimerKeepsAliveInSession(w: World, i: nat)
    requires Inv(w) && i < |w.timers| && AliveInSession(w)
    ensures AliveInSession(OnTimer(w, i).world)
  {
  }

  /** Hence an accepted `state-update` never throws: both of its broadcasts
      find a session. */
  lemma AcceptedUpdateNeverThrows(w: World, from: Id, fragment: string, prop: string, value: Value, lc: Option<int>)
    requires Inv(w) && from in w.clients && AliveInSession(w)
    ensures OnUpdate(w, from, fragment, prop, value, lc).thrown == None
  {
  }

  /** Over any run from the initial world, alive clients are in sessions. */
  lemma {:induction false} RunKeepsAliveInSession(w: World, es: seq<Event>)
    requires Inv(w) && AliveInSession(w)
    ensures AliveInSession(Run(w, es))
    decreases |es|
  {
    if es != [] {
      StepKeepsAliveInSession(w, es[0]);
      RunKeepsAliveInSession(Step(w, es[0]).world, es[1..]);
    }
  }
}
