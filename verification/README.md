# Tetris relay: board engine, session relay and peer views in Dafny

This project models the core of a two-player networked Tetris: the relay
server that pairs players and forwards their game state, the session
membership it keeps, and the two client-side pieces that matter to the
relay's protocol. The model has three parts, plus the id generator:

- **Board engine** (`client/arena.js`). This is the grid of cells with
  `collide`, `merge`, `sweep`, `clear` and `addGarbage`. The grid is an
  immutable `seq<seq<int>>`. The random hole column of a garbage row is a
  parameter.
- **Relay** (`server/server.js`, `server/session.js`, `server/client.js`).
  The whole process state is one immutable `World`: connected clients, the
  lobby in insertion order, session objects, the `sessions` table from id to
  session, pending grace timers, and the log of every frame written. Each
  incoming frame, disconnect, channel drop and timer firing is one step
  function. An exception is a `Handled` result carrying the world as the
  handler left it, because effects made before the throw stay. The earlier
  relay (`server/main.js`) is modelled over the same world.
- **Peer views** (`client/connectionManager.js`). This is how a browser keeps
  one opponent view per other session member and patches the views from
  relayed updates.
- **Ids** (`createId`). The draws of `Math.random` are given as fractions.

Module layout:

- `Wrappers`: `Option` and `Result`.
- `Arena` and `ArenaProps`: the board engine and its properties.
- `Wire`: JSON values, requests and frames.
- `RelayState`: the world and the membership invariant `Inv`.
- `Connection`: `Client.send` and `Client.broadcast`.
- `Membership`: `Session`.
- `Relay` and `RelayProps`: the later relay and its properties.
- `EarlyRelay` and `EarlyProps`: the earlier relay and its properties.
- `Peers` and `PeerProps`: the client-side views and their properties.
- `Ids`: `createId`.

Behaviour of the code that the model keeps as written:

- `collide` treats a cell off the board as a collision. A missing row or
  column reads as `undefined`, which is not 0.
- The `sweep` loop stops above row 0, but after each clear it re-examines the
  same index after `unshift` has moved everything down. A full top row is
  therefore cleared along with any other full row. It survives only when it
  is the only full row (`ArenaProps.FullTopRowSurvivesIffAlone`).
- `game-over` carries only the winner's id, username and score.
- When resolution fires, the `player-died` notice is not relayed to anyone.
- A repeated `player-died` from an already dead client runs resolution again.
  It sends a second `game-over` round and starts a second grace timer
  (`RelayProps.RepeatedDeathReResolves`). A `close` after death is guarded
  (`RelayProps.CloseAfterDeathNoGameOver`).
- `join-session` joins before it assigns the state the frame carries. The
  roster every member receives therefore shows the joiner's previous state
  (`RelayProps.JoinRosterCarriesPriorState`).
- The `state-update` guard needs the fragment to be present. A client that
  creates a session with an empty state has its updates ignored.

## Model

| member | source | states |
|---|---|---|
| Arena.New | client/arena.js:2-9 | `new Arena(w, h)` is h rows of w empty cells |
| Arena.Clear | client/arena.js:38-41 | every cell becomes 0; row count and each row's width are kept |
| Arena.Collide | client/arena.js:55-67 | true exactly when some non-zero piece cell lands on a non-zero cell or off the board |
| Arena.Merge | client/arena.js:43-52 | the non-zero piece cells are written at pos + offset and every other cell is unchanged |
| Arena.RowIsFull | client/arena.js:19-23 | the inner scan reports a row full exactly when it has no 0 cell |
| Arena.Sweep | client/arena.js:12-36 | result is the swept board: cleared rows as zero rows on top, the other rows in their order; linesCleared is the number cleared; score is 10·(2^k − 1) |
| Arena.AddGarbage | client/arena.js:69-83 | fails exactly when `lines` > 0 removes every row, leaving the board empty; `lines` ≤ 0 changes nothing; else the height is kept, rows `lines..h−1` move up to the top, and each new bottom row is all 8 except its hole |
| ArenaProps.SweptShape | client/arena.js:25-26 | a sweep keeps the row count and every row's width |
| ArenaProps.SweptLeavesNoFullRowBelowTop | client/arena.js:18-27 | after a sweep no row with index ≥ 1 is full |
| ArenaProps.FullTopRowSurvivesIffAlone | client/arena.js:18-27 | a full row 0 survives a sweep iff no row below it is full |
| ArenaProps.SweepIdempotent | client/arena.js:12-36 | a second sweep clears nothing and changes nothing |
| ArenaProps.SweepClearsAllOrNothing | client/arena.js:18-31 | a sweep clears either nothing or every full row, leaving no full row |
| ArenaProps.ComboScoreDoubles | client/arena.js:29-30 | each further row in one sweep is worth twice the previous one |
| ArenaProps.ComboScoreExamples | client/arena.js:29-31 | 1, 2, 3, 4 rows score 10, 30, 70, 150 |
| ArenaProps.NoCollisionMeansFits | client/arena.js:55-67 | a piece that does not collide has every non-zero cell on an empty board cell |
| ArenaProps.MergedPieceCollides | client/arena.js:43-67 | after a merge the piece collides with itself in place |
| ArenaProps.MergeKeepsBoard | client/arena.js:43-50 | a merge keeps the board rectangular with the same width |
| ArenaProps.MergeOverwritesOnlyEmptyCells | client/arena.js:43-67 | merging a piece that passed `collide` changes only cells that were empty |
| ArenaProps.ClearIsNew | client/arena.js:38-39 | clearing a w-wide board gives the board the constructor builds |
| ArenaProps.ClearedBoardBlocksOnlyOffBoard | client/arena.js:55-67 | on a cleared board a piece collides iff some cell sticks out of the board |
| ArenaProps.SweepOfClearedBoard | client/arena.js:12-39 | a sweep of a cleared board clears nothing |
| ArenaProps.GarbageRowHasOneHole | client/arena.js:75-78 | a garbage row has exactly one empty cell, at the hole, and 8 elsewhere |
| Connection.NewClient | server/client.js:2-10 | a new client has no session, no state, null names and is not in the lobby |
| Connection.Send | server/client.js:27-39 | exactly one frame when the channel is OPEN, none otherwise |
| Connection.Fan | server/client.js:19-24 | every frame goes to a listed, open target other than the skipped one, with that target's message and the stamp |
| Connection.FanReachesEachOnce | server/client.js:19-24 | over distinct targets, each open non-skipped target gets exactly one frame and nobody else gets any |
| Connection.Broadcast | server/client.js:12-25 | throws NoSession iff the sender has no session; otherwise every frame goes to a session peer other than the sender and is stamped with the sender's id |
| Connection.BroadcastReachesEachPeerOnce | server/client.js:19-24 | every open session peer other than the sender gets exactly one frame |
| Membership.Roster | server/session.js:32-37 | one entry per member, in member order, with that member's id and state |
| Membership.RosterReachesEachMemberOnce | server/session.js:25-41 | each open member gets exactly one roster; its `you` is that member; it lists every member |
| Membership.Join | server/session.js:6-14 | throws iff the client already has a session, changing nothing; else the client is added last, points back at the session, nothing else changes, and the roster goes out |
| Membership.Leave | server/session.js:15-23 | throws iff the client's session is not this one; else the client is removed, its back-reference cleared, other members unchanged, and the roster goes out |
| Membership.LeftUndoesJoined | server/session.js:10-20 | removing a client just added restores the member lists and client records |
| Membership.JoinThenLeave | server/session.js:6-23 | a join then a leave of a fresh client both succeed and restore the membership exactly |
| Relay.LobbyPlayers | server/server.js:84-88 | one entry per lobby client, in lobby order, with its id, username and user id |
| Relay.LobbyStateReachesEachOnce | server/server.js:83-98 | each open lobby client gets exactly one lobby state, addressed to itself |
| Relay.AliveMembers | server/server.js:215 | exactly the alive members, a subsequence of the members (so in member order), without duplicates |
| Relay.ScoreOf | server/server.js:227 | reading the winner's score throws iff it has no state or no `player` fragment |
| Relay.StartStateShape | server/server.js:148-151 | the start state is a 20×12 zero arena and a player with score 0 |
| Relay.OnJoinLobby | server/server.js:117-124 | name and user id recorded, `inLobby` set, appended to the lobby once, lobby state sent to the new lobby |
| Relay.ChatName | server/server.js:129 | the sender's username when truthy, otherwise 'Unknown' |
| Relay.OnChat | server/server.js:125-132 | each open lobby client other than the sender gets the chat line once; nothing else changes |
| Relay.NewSession | server/server.js:138-139 | a fresh empty session is entered into the table under its id |
| Relay.Enlist | server/server.js:170-171 | the client becomes alive with the state it sent; nothing else changes |
| Relay.OnCreateSession | server/server.js:166-176 | the id is in the table; the join throws iff the client had a session; otherwise the client is the only member, alive, with its state |
| Relay.OnJoinSession | server/server.js:177-190 | an unknown id is answered with `session-error` only; a known one adds the client last, alive with its state |
| Relay.Drafted | server/server.js:144-146 | the player leaves the lobby, `inLobby` off, alive |
| Relay.Restate | server/server.js:148-151 | only the client's state is replaced |
| Relay.StartOne | server/server.js:143-156 | the player leaves the lobby; the join throws iff it had a session; else it is added with the start state |
| Relay.OnStartGame | server/server.js:133-165 | with fewer than two lobby clients only an `error` reply is sent and nothing else changes |
| Relay.Patch | server/server.js:194 | only `state[fragment][prop]` is written |
| Relay.OnUpdate | server/server.js:191-207 | a failed guard changes nothing; otherwise only the property is written, and the garbage broadcast (under the rule) and then the relay broadcast are appended |
| Relay.Resolve | server/server.js:217-239 | throws before sending when the winner has no `player` state; else every open member gets `game-over` and a grace timer starts |
| Relay.Alive | server/server.js:215 | the alive members of a session, without duplicates |
| Relay.OnDied | server/server.js:208-248 | the sender is no longer alive, nothing else about clients changes; without a session nothing else happens |
| Relay.CloseLobby | server/server.js:257-261 | a lobby client is removed and the rest get the lobby state; otherwise nothing changes |
| Relay.CloseAlive | server/server.js:267-291 | a client that was not alive changes nothing; otherwise it is marked dead; only frames are appended, the table is untouched, and a throw is `MissingState` with nothing sent and no timer |
| Relay.CloseSession | server/server.js:263-297 | the client leaves and is no longer alive, its session no longer lists it, other clients unchanged; the leave's roster frames come first; a dead closer adds nothing after them; a throw adds nothing after them and leaves timers and table alone; otherwise the session's id is deleted iff no member is left |
| Relay.DropIfEmpty | server/server.js:294-297 | the session's id is deleted from the table iff the session has no members |
| Relay.Forget | server/server.js:254-299 | the closed client's record is removed and nothing else changes |
| Relay.OnClose | server/server.js:254-299 | the client is gone from the clients, the lobby and every member list; other clients unchanged |
| Relay.OnTimer | server/server.js:232-239 | exactly the chosen pending timer is consumed, the session's members are sent `return-to-lobby`, and the session's id is deleted from the table |
| Relay.OnConnect | server/server.js:109-111 | a new id gets a fresh client record; an id already connected changes nothing |
| Relay.OnDrop | server/client.js:27-28 | the client's channel is no longer OPEN; nothing else changes |
| Relay.OnReceive | server/server.js:113-252 | every frame type keeps the membership invariant |
| Relay.Step | server/server.js:109-299 | every event keeps the membership invariant |
| Relay.Run | server/server.js:109-299 | any run of events keeps the membership invariant |
| RelayProps.UpdateRelaysToPeersOnly | server/server.js:192-205 | an accepted update reaches each open peer once, or twice under the garbage rule, never the sender; every frame is stamped and is the update or the attack |
| RelayProps.GarbageOnlyUnderRule | server/server.js:196-203 | every `garbage-attack` frame an update sends implies the garbage rule and an open peer |
| RelayProps.GarbageSentUnderRule | server/server.js:196-203 | under the garbage rule with an open peer a `garbage-attack` frame is sent |
| RelayProps.GarbageIff | server/server.js:196-203 | a `garbage-attack` is sent iff fragment 'player', prop 'score', linesCleared ≥ 2 and an open peer exists |
| RelayProps.GarbageLines | server/server.js:196-197 | the attack carries linesCleared − 1 rows: 1 sends none, 2 sends 1, 4 sends 3 |
| RelayProps.StartGamePairsFirstTwo | server/server.js:133-158 | the first two lobby clients, and only they, leave the lobby and form the new session in lobby order, alive with the start state |
| RelayProps.AliveAfterDeath | server/server.js:209-217 | the resolution test picks x iff x is the only member left alive once the sender is dead |
| RelayProps.DiedWithLastAlive | server/server.js:217-239 | with one survivor every open member (the dead included) gets one `game-over` naming it and a timer starts, or the handler throws having sent nothing |
| RelayProps.DiedWithoutLastAlive | server/server.js:240-246 | without a single survivor only `player-died` goes to each open peer once and no timer starts |
| RelayProps.RepeatedDeathReResolves | server/server.js:208-239 | a `player-died` from an already dead client with one survivor sends `game-over` again and starts another timer |
| RelayProps.CloseLobbyNoGameOver | server/server.js:257-261 | the lobby part of `close` sends no `game-over` |
| RelayProps.CloseSessionOfDeadNoGameOver | server/server.js:263-298 | the session part of `close` for a dead client sends no `game-over` and starts no timer |
| RelayProps.CloseAfterDeathNoGameOver | server/server.js:268 | a `close` from a client already not alive never sends `game-over` or starts a timer |
| RelayProps.CloseWithLastAlive | server/server.js:263-291 | an alive closer leaving one member `x` alive: after the lobby and roster frames each open remaining member gets exactly one `game-over` naming `x` and one timer starts, or the handler throws `MissingState` having sent nothing more; the table is kept |
| RelayProps.CloseWithoutLastAlive | server/server.js:263-297 | an alive closer leaving none or several alive: no `game-over`, no timer, no throw; the session's id is deleted iff no member is left |
| RelayProps.LastAliveAfterLeave | server/server.js:265-270 | leaving the session does not change which other member is the last one alive |
| RelayProps.CloseSessionResolves | server/server.js:265-291 | with a last survivor, the session part of `close` is the resolution in its favour and the session is not deleted |
| RelayProps.CloseAliveWithoutLastAlive | server/server.js:267-272 | without a single member left alive the alive part of `close` only marks the closer dead |
| RelayProps.CloseSessionWithoutLastAlive | server/server.js:263-297 | the session part of `close` without a last survivor sends no `game-over`, starts no timer, and deletes the id iff no member is left |
| RelayProps.CloseLastMemberDropsId | server/server.js:294-297 | closing the last member deletes the session's id from the table |
| RelayProps.TimerReturnsEachMemberOnce | server/server.js:232-239 | the grace timer sends each open member of the session exactly one `return-to-lobby` and nothing else |
| RelayProps.TimerAfterRemovalIsHarmless | server/server.js:232-239 | a timer for an emptied, already deleted session sends nothing and deletes nothing |
| RelayProps.CloseThenTimer | server/server.js:285-297 | the second delete, by the timer after the last member closed, is harmless |
| RelayProps.JoinRosterCarriesPriorState | server/server.js:180-182 | the roster sent at `join-session` lists the joiner with its previous state |
| RelayProps.StartOneKeepsAliveInSession | server/server.js:143-156 | starting one player keeps every alive client in a session |
| RelayProps.StartGameKeepsAliveInSession | server/server.js:133-165 | `start-game` keeps every alive client in a session |
| RelayProps.CreateSessionKeepsAliveInSession | server/server.js:166-176 | `create-session` keeps every alive client in a session |
| RelayProps.JoinSessionKeepsAliveInSession | server/server.js:177-190 | `join-session` keeps every alive client in a session |
| RelayProps.JoinLobbyKeepsAliveInSession | server/server.js:117-124 | `join-lobby` keeps every alive client in a session |
| RelayProps.UpdateKeepsAliveInSession | server/server.js:191-207 | `state-update` keeps every alive client in a session |
| RelayProps.DiedKeepsAliveInSession | server/server.js:208-248 | `died` keeps every alive client in a session |
| RelayProps.ReceiveKeepsAliveInSession | server/server.js:113-252 | every frame keeps every alive client in a session |
| RelayProps.StepKeepsAliveInSession | server/server.js:109-299 | every event keeps every alive client in a session |
| RelayProps.ConnectKeepsAliveInSession | server/server.js:109-111 | a new connection keeps every alive client in a session |
| RelayProps.DropKeepsAliveInSession | server/client.js:27-28 | a dropped channel keeps every alive client in a session |
| RelayProps.CloseKeepsAliveInSession | server/server.js:254-299 | a close keeps every alive client in a session |
| RelayProps.TimerKeepsAliveInSession | server/server.js:232-239 | a session-deleting timer keeps every alive client in a session |
| RelayProps.AcceptedUpdateNeverThrows | server/server.js:192-205 | when alive clients are in sessions, `state-update` never throws |
| RelayProps.RunKeepsAliveInSession | server/server.js:109-299 | over any run, alive clients stay in sessions |
| EarlyRelay.OnCreateSession | server/main.js:31-41 | the id is in the table; the join throws iff the client had a session; otherwise it is the only member, with its state, and not made alive |
| EarlyRelay.OnJoinSession | server/main.js:42-53 | an unknown id gets `session-error` and no membership changes; a known id adds the client last with its state |
| EarlyRelay.OnUpdate | server/main.js:54-59 | applied only when the state has the fragment, with no alive check; writes one property and relays the update with no garbage |
| EarlyRelay.OnChat | server/main.js:60-70 | relayed as a session chat to the peers only when in a session; otherwise nothing happens |
| EarlyRelay.OnClose | server/main.js:73-82 | the client leaves its session, and the session's id is deleted iff the session is left empty |
| EarlyRelay.OnReceive | server/main.js:27-71 | lobby, start-game and player-died frames change nothing |
| EarlyRelay.Step | server/main.js:23-87 | every event keeps the invariant, with no lobby and no timers |
| EarlyRelay.Run | server/main.js:23-87 | any run keeps the invariant, with no lobby and no timers |
| EarlyProps.UpdateIgnoresAliveness | server/main.js:55 | a dead client's update with the fragment is applied and relayed by the early relay and ignored by the later one |
| EarlyProps.UpdateRelaysOnly | server/main.js:54-59 | an applied update reaches each open peer once, as the update itself, whatever linesCleared is |
| EarlyProps.ChatReachesSessionPeers | server/main.js:60-70 | a chat reaches each open session peer once, and nobody without a session |
| EarlyProps.CreateThenClose | server/main.js:31-82 | create then close deletes the new id from the table and leaves the session empty |
| EarlyProps.JoinThenClose | server/main.js:42-82 | join then close restores every member list; the id is deleted iff the session had no members |
| Peers.Admit | client/connectionManager.js:129-153 | every other roster id gains a view seeded from its first entry; existing views are kept |
| Peers.UpdateManager | client/connectionManager.js:125-166 | the view keys are exactly the roster ids other than `you`; existing views are kept; new views are seeded only from states with both `arena` and `player`; the sorted list follows the roster with `you` as the local game |
| Peers.UpdatePeer | client/connectionManager.js:168-185 | an unknown id changes nothing; a known id has exactly `[fragment][prop]` set |
| Peers.Send | client/connectionManager.js:246-251 | a frame is written only while the socket is OPEN |
| Peers.Receive | client/connectionManager.js:187-244 | a roster rebuilds the views; a relayed update patches the stamped sender, or reports the fault and keeps the views; a garbage attack applies `addGarbage(lines)` to the local board and reports `NoRowLeft` with the board left empty exactly when every row is removed |
| PeerProps.UpdateManagerIdempotent | client/connectionManager.js:125-166 | applying the same roster twice equals applying it once |
| PeerProps.RelayRosterGivesOneViewPerOtherMember | client/connectionManager.js:125-166 | the relay's roster yields one view per other member, and the local game sits at `you`'s place |
| PeerProps.UpdatePeerCommutes | client/connectionManager.js:168-185 | patches of two different peers commute |
| PeerProps.PatchSurvivesRoster | client/connectionManager.js:130 | a patched view survives a later roster that still lists the peer |
| Ids.IndexOf | server/server.js:74 | the random product truncated to an integer is an index below n |
| Ids.CreateId | server/server.js:71-77 | an id of exactly `len` characters, the k-th being the alphabet entry the k-th draw selects |
| Ids.CreateDefaultId | server/server.js:71 | a default id has six characters, all from the default alphabet, none of them `i`, `l`, `u` or `v` |

## Left out

- The WebSocket and HTTP transport and JSON encoding. Frames are datatypes and the output is a log of frames.
- Console logging and the `try/catch` around the message switch. A throw ends only that handler.
- In server/main.js no `try/catch` surrounds the handlers. A throw there (a `join` by a client already in a session, an applied update without a session) is modelled the same way, as an ended handler, not as a process crash.
- The `close` handler of server/server.js has no `try/catch`. Its throw (reading a winner without a `player` state) is modelled as an ended handler. The client record is still dropped.
- `setTimeout` timing. The 5-second grace period is the `TimerFires` event, which may fire at any later point.
- `Math.random` in `createId` and in the garbage hole column. Both are parameters.
- `Date.now()` in the early chat relay. It is a parameter of the event.
- Ids are assumed unique among connected clients. A `Connect` with a taken id changes nothing.
- The DOM, overlays, labels, rendering, `window.location` navigation and `alert` in client/connectionManager.js, and the keyboard handling in client/main.js.
- The `tetrisManager` calls. A peer view is the state it shows, and `unserialize` is modelled as taking the roster state.
- The `Events` emitter of arena.js.
- The Express routes and the MySQL models under server/routes, server/models and server/config. These wrap a database and libraries that are not part of this model.
- JSON fragments that are not objects (a `null` fragment) are not represented. A fragment present in a state counts as truthy.
- Ids.CreateId: requires a non-empty alphabet. With an empty one, `chars[0]` is `undefined` and the id would contain the text "undefined". Every caller uses the default alphabet.
- Arena.Sweep: requires every row to be at least one cell wide. With a zero-width board the loop re-examines the same row forever.
- Relay.OnStartGame: its contract covers only the short-lobby case. The pairing case is stated by `RelayProps.StartGamePairsFirstTwo` for first two lobby clients that have no session. When one of them already has a session, the join throws part-way and the handler stops.
- Relay.OnDied: its contract states only the alive flags and the no-session case. The session cases are stated by `RelayProps.DiedWithLastAlive` and `RelayProps.DiedWithoutLastAlive`.
- Relay.OnClose: its contract states the membership effect and the no-session case. The session cases are stated by `RelayProps.CloseWithLastAlive`, `RelayProps.CloseWithoutLastAlive` and `RelayProps.CloseAfterDeathNoGameOver`.
