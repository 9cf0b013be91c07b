/** The frames exchanged between a game client and the relay, as datatypes in
    place of JSON objects. */
module Wire {
  import opened Wrappers
  import Arena

  type Id = string

  /** A JSON value as far as the relay and the client look at it. */
  datatype Value =
    | Undefined
    | Null
    | Flag(b: bool)
    | Num(n: int)
    | Text(s: string)
    | Cells(rows: Arena.Grid)
    | Point(x: int, y: int)
    | Blob(tag: nat)

  /** JavaScript truthiness of a value. */
  predicate Truthy(v: Value) {
    match v
    case Undefined => false
    case Null => false
    case Flag(b) => b
    case Num(n) => n != 0
    case Text(s) => s != ""
    case _ => true
  }

  /** One replicated state slice (`arena` or `player`): property name to value. */
  type Fragment = map<string, Value>

  /** A replicated state snapshot: fragment name to fragment. */
  type State = map<string, Fragment>

  const ArenaFragment := "arena"
  const PlayerFragment := "player"
  const ScoreProp := "score"

  /** One entry of the lobby roster. */
  datatype PlayerInfo = PlayerInfo(id: Id, username: Value, userId: Value)

  /** One entry of a session roster: a member's id and last-known state. */
  datatype RosterEntry = RosterEntry(id: Id, state: Option<State>)

  /** Frames a client sends to the relay; `Unrecognised` is any other `type`. */
  datatype Request =
    | JoinLobby(username: Value, userId: Value)
    | Chat(message: Value)
    | StartGame
    | CreateSession(state: Option<State>)
    | JoinSession(id: string, state: Option<State>)
    | Update(fragment: string, prop: string, value: Value, linesCleared: Option<int>)
    | Died
    | Unrecognised

  const NotEnoughPlayers := "Not enough players to start game"
  const SessionNotFound := "Session not found"
  const UnknownName := Text("Unknown")

  /** Frames the relay sends to a client. */
  datatype Msg =
    | LobbyState(yourId: Id, players: seq<PlayerInfo>)
    | LobbyChat(username: Value, message: Value)
    | GameStart(sessionId: string)
    | ErrorReply(text: string)
    | SessionCreated(id: string)
    | SessionError(text: string)
    | SessionBroadcast(you: Id, clients: seq<RosterEntry>)
    | StateRelay(fragment: string, prop: string, value: Value, linesCleared: Option<int>)
    | GarbageAttack(lines: int, fromPlayer: Id)
    | PlayerDied(playerId: Id)
    | GameOver(winnerId: Id, winnerName: Value, winnerScore: Value)
    | ReturnToLobby
    | SessionChat(message: Value, sender: Id, timestamp: int)

  /** One frame on the wire: its addressee, its body, and the `clientId` a
      session broadcast stamps onto it. */
  datatype Frame = Frame(to: Id, msg: Msg, clientId: Option<Id>)
}
