/** The relay's process-wide state (server/server.js:68-69 and the per-client
    fields of server/client.js) as one immutable record, with the invariant
    that ties clients, sessions, the session table and the lobby together. */
module RelayState {
  import opened Wrappers
  import opened Wire
  import opened Seqs

  /** A session object.  The table can forget it while clients still hold it,
      so objects are kept apart from the id-keyed table. */
  type SessionRef = nat

  /** A connected client: its id, whether its channel is still OPEN, its
      session back-reference, its replicated state and lobby/match flags. */
  datatype Client = Client(
    id: Id,
    open: bool,
    session: Option<SessionRef>,
    state: Option<State>,
    username: Value,
    userId: Value,
    inLobby: bool,
    isAlive: bool)

  /** A session: its id and its members in insertion order. */
  datatype Session = Session(id: string, members: seq<Id>)

  /** clients: the connected clients by id; lobby: the lobby Map's keys in
      insertion order; sessions: every session object ever created; table: the
      `sessions` Map from id to object; timers: the grace timers still pending;
      out: every frame written so far. */
  datatype World = World(
    clients: map<Id, Client>,
    lobby: seq<Id>,
    sessions: map<SessionRef, Session>,
    nextRef: SessionRef,
    table: map<string, SessionRef>,
    timers: seq<SessionRef>,
    out: seq<Frame>)

  /** What a handler throws: `join` on a client that has a session, `leave` by
      a non-member, `broadcast` without a session, and a winner without a
      `state.player` to read the score from. */
  datatype Error = AlreadyInSession | NotInSession | NoSession | MissingState

  /** A handler's result: the world as the handler left it (effects before a
      throw stay) and what it threw, if anything. */
  datatype Handled = Handled(world: World, thrown: Option<Error>)

  const Initial := World(map[], [], map[], 0, map[], [], [])

  predicate KeyedById(w: World) {
    forall k | k in w.clients :: w.clients[k].id == k
  }

  /** Every member of a session is a connected client pointing back at it. */
  predicate MembersPointBack(w: World) {
    forall r, m | r in w.sessions && m in w.sessions[r].members ::
      m in w.clients && w.clients[m].session == Some(r)
  }

  /** Every back-reference names a session that lists the client. */
  predicate BackRefsListed(w: World) {
    forall k | k in w.clients && w.clients[k].session.Some? ::
      w.clients[k].session.value in w.sessions
      && k in w.sessions[w.clients[k].session.value].members
  }

  predicate SessionsWellFormed(w: World) {
    forall r | r in w.sessions :: r < w.nextRef && NoDup(w.sessions[r].members)
  }

  predicate HandlesValid(w: World) {
    && (forall s | s in w.table :: w.table[s] in w.sessions)
    && (forall i | 0 <= i < |w.timers| :: w.timers[i] in w.sessions)
  }

  /** The lobby lists connected clients, each once, each flagged `inLobby`. */
  predicate LobbyWellFormed(w: World) {
    && NoDup(w.lobby)
    && forall k | k in w.lobby :: k in w.clients && w.clients[k].inLobby
  }

  /** The membership invariant: a client is in at most one session (its single
      back-reference), and membership and back-references agree. */
  predicate Inv(w: World) {
    && KeyedById(w)
    && MembersPointBack(w)
    && BackRefsListed(w)
    && SessionsWellFormed(w)
    && HandlesValid(w)
    && LobbyWellFormed(w)
  }

  lemma InitialInv()
    ensures Inv(Initial)
  {
  }

  /** A client without a back-reference is listed in no session. */
  lemma NoSessionNoMember(w: World, c: Id)
    requires Inv(w) && c in w.clients && w.clients[c].session.None?
    ensures forall r | r in w.sessions :: c !in w.sessions[r].members
  {
  }

  /** The members of client `c`'s session, or none. */
  function Peers(w: World, c: Id): seq<Id>
    requires Inv(w) && c in w.clients
  {
    match w.clients[c].session
    case None => []
    case Some(r) => w.sessions[r].members
  }

  /** Replacing a client's fields other than its id, session and lobby flag
      keeps the invariant. */
  lemma UpdateClientKeepsInv(w: World, k: Id, c: Client)
    requires Inv(w) && k in w.clients
    requires c.id == k && c.session == w.clients[k].session
    requires w.clients[k].inLobby ==> c.inLobby
    ensures Inv(w.(clients := w.clients[k := c]))
  {
  }
}
