/** A session's membership (server/session.js): `join` and `leave` keep the
    client's back-reference and the member set in step, and every change sends
    each member the full roster. */
module Membership {
  import opened Wrappers
  import opened Wire
  import opened Seqs
  import opened RelayState
  import opened Connection

  /** The roster `broadcastSession` builds: every member's id and state, in
      member order. */
  function Roster(clients: map<Id, Client>, members: seq<Id>): (r: seq<RosterEntry>)
    requires forall m | m in members :: m in clients
    ensures |r| == |members|
    ensures forall i | 0 <= i < |members| :: r[i] == RosterEntry(members[i], clients[members[i]].state)
  {
    seq(|members|, i requires 0 <= i < |members| => RosterEntry(members[i], clients[members[i]].state))
  }

  /** `broadcastSession`: each member is sent the roster addressed to itself. */
  function RosterFrames(clients: map<Id, Client>, members: seq<Id>): seq<Frame>
    requires forall m | m in members :: m in clients
  {
    var roster := Roster(clients, members);
    Fan(clients, members, None, m => SessionBroadcast(m, roster), None)
  }

  /** Every open member receives exactly one roster; its `you` is that member
      and it lists every member's id and state in member order. */
  lemma RosterReachesEachMemberOnce(clients: map<Id, Client>, members: seq<Id>)
    requires NoDup(members) && forall m | m in members :: m in clients
    ensures forall t :: CountTo(RosterFrames(clients, members), t) ==
              if t in members && clients[t].open then 1 else 0
    ensures forall f | f in RosterFrames(clients, members) ::
              f.msg == SessionBroadcast(f.to, Roster(clients, members)) && f.clientId == None
  {
    var roster := Roster(clients, members);
    FanReachesEachOnce(clients, members, None, m => SessionBroadcast(m, roster), None);
  }

  /** The world right after `join` has added the client, before the roster. */
  function Joined(w: World, ref: SessionRef, c: Id): World
    requires ref in w.sessions && c in w.clients
  {
    var s := w.sessions[ref];
    w.(sessions := w.sessions[ref := s.(members := AddLast(s.members, c))],
       clients := w.clients[c := w.clients[c].(session := Some(ref))])
  }

  lemma JoinedKeepsInv(w: World, ref: SessionRef, c: Id)
    requires Inv(w) && ref in w.sessions && c in w.clients && w.clients[c].session.None?
    ensures c !in w.sessions[ref].members
    ensures Inv(Joined(w, ref, c))
  {
    var w1 := Joined(w, ref, c);
    forall r, m | r in w1.sessions && m in w1.sessions[r].members
      ensures m in w1.clients && w1.clients[m].session == Some(r)
    {
      if m != c {
        assert m in w.sessions[r].members;
      }
    }
    assert MembersPointBack(w1);
    forall k | k in w1.clients && w1.clients[k].session.Some?
      ensures w1.clients[k].session.value in w1.sessions
      ensures k in w1.sessions[w1.clients[k].session.value].members
    {
    }
    assert BackRefsListed(w1);
    assert SessionsWellFormed(w1);
  }

  /** `join`: throws if the client already has a session; otherwise adds it
      last, points it at this session and sends everyone the new roster. */
  function Join(w: World, ref: SessionRef, c: Id): (r: Result<World, Error>)
    requires Inv(w) && ref in w.sessions && c in w.clients
    ensures r.Failure? <==> w.clients[c].session.Some?
    ensures r.Failure? ==> r.error == AlreadyInSession
    ensures r.Success? ==>
              var w' := r.value;
              && Inv(w')
              && w'.clients == w.clients[c := w.clients[c].(session := Some(ref))]
              && w'.sessions == w.sessions[ref := w.sessions[ref].(members := w.sessions[ref].members + [c])]
              && w'.lobby == w.lobby && w'.table == w.table && w'.timers == w.timers
              && w'.nextRef == w.nextRef
              && w'.out == w.out + RosterFrames(w'.clients, w'.sessions[ref].members)
  {
    if w.clients[c].session.Some? then Failure(AlreadyInSession)
    else
      JoinedKeepsInv(w, ref, c);
      var w1 := Joined(w, ref, c);
      OutKeepsInv(w1, w1.out + RosterFrames(w1.clients, w1.sessions[ref].members));
      Success(w1.(out := w1.out + RosterFrames(w1.clients, w1.sessions[ref].members)))
  }

  lemma OutKeepsInv(w: World, out: seq<Frame>)
    requires Inv(w)
    ensures Inv(w.(out := out))
  {
  }

  /** The world right after `leave` has removed the client, before the roster. */
  function Left(w: World, ref: SessionRef, c: Id): World
    requires ref in w.sessions && c in w.clients
  {
    var s := w.sessions[ref];
    w.(sessions := w.sessions[ref := s.(members := Without(s.members, c))],
       clients := w.clients[c := w.clients[c].(session := None)])
  }

  lemma LeftKeepsInv(w: World, ref: SessionRef, c: Id)
    requires Inv(w) && ref in w.sessions && c in w.clients && w.clients[c].session == Some(ref)
    ensures Inv(Left(w, ref, c))
  {
    var w1 := Left(w, ref, c);
    WithoutKeepsNoDup(w.sessions[ref].members, c);
    forall r, m | r in w1.sessions && m in w1.sessions[r].members
      ensures m in w1.clients && w1.clients[m].session == Some(r)
    {
      assert m in w.sessions[r].members;
    }
    assert MembersPointBack(w1);
    forall k | k in w1.clients && w1.clients[k].session.Some?
      ensures w1.clients[k].session.value in w1.sessions
      ensures k in w1.sessions[w1.clients[k].session.value].members
    {
      assert k != c;
    }
    assert BackRefsListed(w1);
    assert SessionsWellFormed(w1);
  }

  /** `leave`: throws unless the client's back-reference is this session;
      otherwise removes it, clears the back-reference and sends the remaining
      members the new roster. */
  function Leave(w: World, ref: SessionRef, c: Id): (r: Result<World, Error>)
    requires Inv(w) && ref in w.sessions && c in w.clients
    ensures r.Failure? <==> w.clients[c].session != Some(ref)
    ensures r.Failure? ==> r.error == NotInSession
    ensures r.Success? ==>
              var w' := r.value;
              && Inv(w')
              && w'.clients == w.clients[c := w.clients[c].(session := None)]
              && w'.sessions == w.sessions[ref := w.sessions[ref].(members := Without(w.sessions[ref].members, c))]
              && c !in w'.sessions[ref].members
              && w'.lobby == w.lobby && w'.table == w.table && w'.timers == w.timers
              && w'.nextRef == w.nextRef
              && w'.out == w.out + RosterFrames(w'.clients, w'.sessions[ref].members)
  {
    if w.clients[c].session != Some(ref) then Failure(NotInSession)
    else
      LeftKeepsInv(w, ref, c);
      var w1 := Left(w, ref, c);
      var w2 := w1.(out := w1.out + RosterFrames(w1.clients, w1.sessions[ref].members));
      assert Inv(w2) by { OutKeepsInv(w1, w2.out); }
      assert c !in w2.sessions[ref].members;
      Success(w2)
  }

  lemma LeftUndoesJoined(w: World, ref: SessionRef, c: Id)
    requires Inv(w) && ref in w.sessions && c in w.clients
    requires w.clients[c].session.None?
    ensures Left(Joined(w, ref, c), ref, c).sessions == w.sessions
    ensures Left(Joined(w, ref, c), ref, c).clients == w.clients
  {
    var s := w.sessions[ref];
    var cl := w.clients[c];
    NoSessionNoMember(w, c);
    WithoutAddLast(s.members, c);
    PutTwice(w.sessions, ref, s.(members := AddLast(s.members, c)), s.(members := s.members));
    PutSame(w.sessions, ref);
    PutTwice(w.clients, c, cl.(session := Some(ref)), cl.(session := None));
    PutSame(w.clients, c);
  }

  /** A client without a session that joins and then leaves leaves the member
      list and every client record exactly as they were. */
  lemma JoinThenLeave(w: World, ref: SessionRef, c: Id)
    requires Inv(w) && ref in w.sessions && c in w.clients
    requires w.clients[c].session.None?
    ensures Join(w, ref, c).Success?
    ensures Leave(Join(w, ref, c).value, ref, c).Success?
    ensures var w' := Leave(Join(w, ref, c).value, ref, c).value;
            w'.sessions == w.sessions && w'.clients == w.clients
  {
    var w1 := Join(w, ref, c).value;
    var w2 := Leave(w1, ref, c).value;
    LeftUndoesJoined(w, ref, c);
    assert w2.sessions == Left(Joined(w, ref, c), ref, c).sessions;
    assert w2.clients == Left(Joined(w, ref, c), ref, c).clients;
  }
}
