/** The browser side of a match (client/connectionManager.js): the map of
    opponent views kept in step with the session roster, the per-property
    patch of one opponent, the garbage injected into the local board, and
    the best-effort `send`.  An opponent view is abstracted to the state it
    shows; the DOM, the rendering and the navigation are not modelled. */
module Peers {
  import opened Wrappers
  import opened Wire
  import Arena
  import Relay

  /** An entry of the sorted player list: the local game or an opponent's view. */
  datatype Slot = Local | Remote(id: Id)

  /** peers: opponent views by id; arena: the local board; sorted: the order
      handed to the renderer; open: whether the socket exists and is OPEN;
      sent: every frame written so far. */
  datatype Manager = Manager(
    peers: map<Id, State>,
    arena: Arena.Grid,
    sorted: seq<Slot>,
    open: bool,
    sent: seq<Request>)

  /** A patch aimed at a fragment the view does not have, and the board
      failure of `addGarbage`. */
  datatype Fault = MissingFragment | ArenaFault(e: Arena.ArenaError)

  /** A roster state a new view is seeded from: it has both fragments. */
  predicate Seedable(st: Option<State>) {
    st.Some? && ArenaFragment in st.value && PlayerFragment in st.value
  }

  /** The view `createPlayer` gives a new opponent: the roster state when it
      can be unserialised, otherwise the blank view. */
  function Seed(st: Option<State>, blank: State): State {
    if Seedable(st) then st.value else blank
  }

  /** The ids of the roster other than the receiver's own. */
  function Others(roster: seq<RosterEntry>, you: Id): set<Id> {
    set i | 0 <= i < |roster| && roster[i].id != you :: roster[i].id
  }

  /** Entry `i` is the first roster entry with its id. */
  predicate FirstAt(roster: seq<RosterEntry>, i: nat)
    requires i < |roster|
  {
    forall j | 0 <= j < i :: roster[j].id != roster[i].id
  }

  /** The other ids of a roster: its head's, unless it is the receiver's,
      and those of the rest. */
  lemma OthersCons(roster: seq<RosterEntry>, you: Id)
    requires roster != []
    ensures Others(roster, you) == (if roster[0].id == you then {} else {roster[0].id}) + Others(roster[1..], you)
  {
    var c := roster[0];
    forall x ensures x in Others(roster, you) <==> x in (if c.id == you then {} else {c.id}) + Others(roster[1..], you) {
      if x in Others(roster[1..], you) {
        var k :| 0 <= k < |roster[1..]| && roster[1..][k].id != you && roster[1..][k].id == x;
        assert roster[k + 1].id == x;
      }
    }
  }

  /** A first occurrence past the head differs from the head and is a first
      occurrence in the rest. */
  lemma FirstAtTail(roster: seq<RosterEntry>, i: nat)
    requires 0 < i < |roster| && FirstAt(roster, i)
    ensures roster[1..][i - 1] == roster[i] && roster[i].id != roster[0].id && FirstAt(roster[1..], i - 1)
  {
    forall j | 0 <= j < i - 1 ensures roster[1..][j].id != roster[1..][i - 1].id {
      assert roster[1..][j] == roster[j + 1];
    }
  }

  /** The adding loop of `updateManager`: every other roster id that has no
      view yet gets one, seeded from its first roster entry; views already
      present are left alone. */
  function Admit(peers: map<Id, State>, roster: seq<RosterEntry>, you: Id, blank: State): (r: map<Id, State>)
    ensures r.Keys == peers.Keys + Others(roster, you)
    ensures forall id | id in peers :: r[id] == peers[id]
    ensures forall i | 0 <= i < |roster| && roster[i].id != you && roster[i].id !in peers && FirstAt(roster, i) ::
              r[roster[i].id] == Seed(roster[i].state, blank)
    decreases |roster|
  {
    if roster == [] then peers
    else
      var c := roster[0];
      var p := if c.id == you || c.id in peers then peers else peers[c.id := Seed(c.state, blank)];
      var r := Admit(p, roster[1..], you, blank);
      OthersCons(roster, you);
      forall i | 0 <= i < |roster| && roster[i].id != you && roster[i].id !in peers && FirstAt(roster, i)
        ensures r[roster[i].id] == Seed(roster[i].state, blank)
      {
        if i > 0 {
          FirstAtTail(roster, i);
          assert roster[i].id in Others(roster[1..], you) by {
            assert roster[1..][i - 1].id == roster[i].id;
          }
        }
      }
      r
  }

  /** `updateManager(peers)`: after it, there is exactly one view per roster
      id other than the receiver's own; views already present stay as they
      were, new ones are seeded from the roster; the sorted list follows the
      roster, with the receiver's own entry standing for the local game. */
  function UpdateManager(m: Manager, you: Id, roster: seq<RosterEntry>, blank: State): (r: Manager)
    ensures r.peers.Keys == Others(roster, you)
    ensures forall id | id in m.peers && id in r.peers :: r.peers[id] == m.peers[id]
    ensures forall i | 0 <= i < |roster| && roster[i].id != you && roster[i].id !in m.peers && FirstAt(roster, i) ::
              r.peers[roster[i].id] == Seed(roster[i].state, blank)
    ensures |r.sorted| == |roster|
    ensures forall i | 0 <= i < |roster| ::
              && (r.sorted[i] == Local <==> roster[i].id == you)
              && (roster[i].id != you ==> r.sorted[i] == Remote(roster[i].id))
    ensures r.arena == m.arena && r.open == m.open && r.sent == m.sent
  {
    var p := Admit(m.peers, roster, you, blank);
    var others := Others(roster, you);
    var kept := map id | id in p && id in others :: p[id];
    var sorted := seq(|roster|, i requires 0 <= i < |roster| =>
      if roster[i].id in kept then Remote(roster[i].id) else Local);
    assert forall i | 0 <= i < |roster| && roster[i].id != you :: roster[i].id in others;
    m.(peers := kept, sorted := sorted)
  }

  /** `updatePeer(id, fragment, [prop, value])`: an unknown id changes
      nothing; a known one has exactly `[fragment][prop]` set, and a fragment
      the view does not have makes the write throw. */
  function UpdatePeer(m: Manager, id: Id, fragment: string, prop: string, value: Value): (r: Result<Manager, Fault>)
    ensures id !in m.peers ==> r == Success(m)
    ensures id in m.peers && fragment !in m.peers[id] ==> r == Failure(MissingFragment)
    ensures id in m.peers && fragment in m.peers[id] ==>
              && r.Success?
              && r.value.(peers := m.peers) == m
              && r.value.peers.Keys == m.peers.Keys
              && (forall k | k in m.peers && k != id :: r.value.peers[k] == m.peers[k])
              && r.value.peers[id].Keys == m.peers[id].Keys
              && fragment in r.value.peers[id] && prop in r.value.peers[id][fragment]
              && r.value.peers[id][fragment][prop] == value
              && r.value.peers[id][fragment].Keys == m.peers[id][fragment].Keys + {prop}
              && (forall q | q in m.peers[id][fragment] && q != prop ::
                    r.value.peers[id][fragment][q] == m.peers[id][fragment][q])
              && (forall g | g in m.peers[id] && g != fragment :: r.value.peers[id][g] == m.peers[id][g])
  {
    if id !in m.peers then Success(m)
    else if fragment !in m.peers[id] then Failure(MissingFragment)
    else Success(m.(peers := m.peers[id := Relay.Patch(m.peers[id], fragment, prop, value)]))
  }

  /** `send`: written only while the socket is OPEN, dropped otherwise. */
  function Send(m: Manager, req: Request): (r: Manager)
    ensures m.open ==> r.sent == m.sent + [req]
    ensures !m.open ==> r == m
    ensures r.(sent := m.sent) == m
  {
    if m.open then m.(sent := m.sent + [req]) else m
  }

  /** `receive`: a roster rebuilds the views, a relayed update patches the
      stamped sender's view, a garbage attack injects `lines` rows into the
      local board (hole columns given); every other frame only touches the
      page.  A throw is returned as `fault` next to the manager it leaves
      behind: a patch of a missing fragment throws before it writes, a
      garbage attack that removes every row throws after emptying the board. */
  method Receive(m: Manager, f: Frame, blank: State, holes: seq<nat>) returns (r: Manager, fault: Option<Fault>)
    requires Arena.IsBoard(m.arena)
    requires f.msg.GarbageAttack? ==> Arena.ValidHoles(holes, f.msg.lines, Arena.Width(m.arena))
    ensures f.msg.SessionBroadcast? ==> r == UpdateManager(m, f.msg.you, f.msg.clients, blank) && fault == None
    ensures f.msg.StateRelay? && f.clientId.Some? ==>
              var u := UpdatePeer(m, f.clientId.value, f.msg.fragment, f.msg.prop, f.msg.value);
              && (u.Success? ==> r == u.value && fault == None)
              && (u.Failure? ==> r == m && fault == Some(u.error))
    ensures f.msg.StateRelay? && f.clientId.None? ==> r == m && fault == None
    ensures f.msg.GarbageAttack? ==>
              && r.(arena := m.arena) == m
              && (fault.Some? <==> f.msg.lines > 0 && f.msg.lines >= |m.arena|)
              && (fault.Some? ==> fault == Some(ArenaFault(Arena.NoRowLeft)) && r.arena == [])
              && (f.msg.lines <= 0 ==> r == m && fault == None)
              && (fault.None? ==>
                    && |r.arena| == |m.arena|
                    && (forall y | 0 <= y < |m.arena| - |holes| :: r.arena[y] == m.arena[y + |holes|])
                    && (forall i | 0 <= i < |holes| ::
                          r.arena[|m.arena| - |holes| + i] == Arena.GarbageRow(Arena.Width(m.arena), holes[i])))
    ensures !f.msg.SessionBroadcast? && !f.msg.StateRelay? && !f.msg.GarbageAttack? ==> r == m && fault == None
  {
    match f.msg {
      case SessionBroadcast(you, clients) =>
        r, fault := UpdateManager(m, you, clients, blank), None;
      case StateRelay(fragment, prop, value, _) =>
        if f.clientId.Some? {
          var u := UpdatePeer(m, f.clientId.value, fragment, prop, value);
          if u.Success? {
            r, fault := u.value, None;
          } else {
            r, fault := m, Some(u.error);
          }
        } else {
          r, fault := m, None;
        }
      case GarbageAttack(lines, _) =>
        var a, thrown := Arena.AddGarbage(m.arena, lines, holes);
        r := m.(arena := a);
        fault := if thrown.Some? then Some(ArenaFault(thrown.value)) else None;
      case _ =>
        r, fault := m, None;
    }
  }

}
