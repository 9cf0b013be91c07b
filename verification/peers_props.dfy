/** Properties of the client-side peer reconciliation: a roster applied twice
    changes nothing the second time, a roster built by the relay yields one
    view per other member, and patches of different peers commute. */
module PeerProps {
  import opened Wrappers
  import opened Wire
  import opened Seqs
  import opened RelayState
  import Membership
  import Relay
  import opened Peers

  /** Two managers that agree on every field the renderer and the views
      see are the same manager. */
  lemma SameManager(a: Manager, b: Manager)
    requires a.peers.Keys == b.peers.Keys && forall id | id in a.peers :: a.peers[id] == b.peers[id]
    requires |a.sorted| == |b.sorted| && forall i | 0 <= i < |a.sorted| :: a.sorted[i] == b.sorted[i]
    requires a.arena == b.arena && a.open == b.open && a.sent == b.sent
    ensures a == b
  {
    assert a.peers == b.peers;
    assert a.sorted == b.sorted;
  }

  /** Applying the same roster a second time leaves the manager as the first
      application left it. */
  lemma UpdateManagerIdempotent(m: Manager, you: Id, roster: seq<RosterEntry>, blank: State)
    ensures var once := UpdateManager(m, you, roster, blank);
            UpdateManager(once, you, roster, blank) == once
  {
    var once := UpdateManager(m, you, roster, blank);
    var twice := UpdateManager(once, you, roster, blank);
    forall i | 0 <= i < |roster| ensures twice.sorted[i] == once.sorted[i] {
      if roster[i].id == you {
        assert twice.sorted[i] == Local && once.sorted[i] == Local;
      }
    }
    SameManager(twice, once);
  }

  /** The roster the relay sends to `you` (a member of the session) yields
      exactly one view per other member, and the sorted list puts the local
      game at `you`'s place in the member order and only there. */
  lemma RelayRosterGivesOneViewPerOtherMember(clients: map<Id, Client>, members: seq<Id>, you: Id,
                                              m: Manager, blank: State)
    requires forall x | x in members :: x in clients
    ensures var r := UpdateManager(m, you, Membership.Roster(clients, members), blank);
            && r.peers.Keys == (set x | x in members) - {you}
            && |r.sorted| == |members|
            && forall i | 0 <= i < |members| :: r.sorted[i] == if members[i] == you then Local else Remote(members[i])
  {
    var roster := Membership.Roster(clients, members);
    forall x ensures x in Others(roster, you) <==> x in (set y | y in members) - {you} {
      if x in members && x != you {
        var i :| 0 <= i < |members| && members[i] == x;
        assert roster[i].id == x;
      }
    }
  }

  /** Patches of two different peers can be applied in either order. */
  lemma UpdatePeerCommutes(m: Manager, a: Id, fa: string, pa: string, va: Value,
                           b: Id, fb: string, pb: string, vb: Value)
    requires a != b
    requires a in m.peers && fa in m.peers[a] && b in m.peers && fb in m.peers[b]
    ensures UpdatePeer(m, a, fa, pa, va).Success? && UpdatePeer(m, b, fb, pb, vb).Success?
    ensures UpdatePeer(UpdatePeer(m, a, fa, pa, va).value, b, fb, pb, vb) ==
            UpdatePeer(UpdatePeer(m, b, fb, pb, vb).value, a, fa, pa, va)
  {
    var va' := Relay.Patch(m.peers[a], fa, pa, va);
    var vb' := Relay.Patch(m.peers[b], fb, pb, vb);
    PutSwap(m.peers, a, va', b, vb');
  }

  /** A patch that reaches a view survives a later roster that still lists
      that peer: the roster does not reseed views it already has. */
  lemma PatchSurvivesRoster(m: Manager, id: Id, fragment: string, prop: string, value: Value,
                            you: Id, roster: seq<RosterEntry>, blank: State)
    requires id in m.peers && fragment in m.peers[id]
    requires id != you && exists i :: 0 <= i < |roster| && roster[i].id == id
    ensures var p := UpdatePeer(m, id, fragment, prop, value).value;
            var r := UpdateManager(p, you, roster, blank);
            && id in r.peers && fragment in r.peers[id] && prop in r.peers[id][fragment]
            && r.peers[id][fragment][prop] == value
  {
    var p := UpdatePeer(m, id, fragment, prop, value).value;
    var i :| 0 <= i < |roster| && roster[i].id == id;
    assert id in Others(roster, you);
  }
}
