/** One relay-side client (server/client.js): its constructor, the
    best-effort `send`, and `broadcast` to the other members of its session. */
module Connection {
  import opened Wrappers
  import opened Wire
  import opened Seqs
  import opened RelayState

  /** `new Client(conn, id)` on a freshly accepted, open connection. */
  function NewClient(id: Id): (c: Client)
    ensures c.id == id && c.open
    ensures c.session == None && c.state == None
    ensures !c.inLobby && !c.isAlive
    ensures c.username == Null && c.userId == Null
  {
    Client(id, true, None, None, Null, Null, false, false)
  }

  /** `send`: one frame when the client's channel is OPEN, otherwise nothing
      (no error, no queueing). */
  function Send(clients: map<Id, Client>, to: Id, msg: Msg, stamp: Option<Id>): (fs: seq<Frame>)
    ensures fs == [] || fs == [Frame(to, msg, stamp)]
    ensures fs != [] <==> to in clients && clients[to].open
  {
    if to in clients && clients[to].open then [Frame(to, msg, stamp)] else []
  }

  /** Sends `mk(t)` to each target `t` in order, skipping `skip`: the
      `forEach(client => client.send(...))` loops of the relay. */
  function Fan(clients: map<Id, Client>, targets: seq<Id>, skip: Option<Id>, mk: Id -> Msg, stamp: Option<Id>): (fs: seq<Frame>)
    ensures forall i | 0 <= i < |fs| ::
              && fs[i].to in targets
              && Some(fs[i].to) != skip
              && fs[i].to in clients && clients[fs[i].to].open
              && fs[i].msg == mk(fs[i].to)
              && fs[i].clientId == stamp
  {
    if targets == [] then []
    else
      (if Some(targets[0]) == skip then [] else Send(clients, targets[0], mk(targets[0]), stamp))
      + Fan(clients, targets[1..], skip, mk, stamp)
  }

  /** How many of the frames are addressed to `id`. */
  function CountTo(fs: seq<Frame>, id: Id): nat {
    if fs == [] then 0 else (if fs[0].to == id then 1 else 0) + CountTo(fs[1..], id)
  }

  lemma {:induction false} CountToConcat(a: seq<Frame>, b: seq<Frame>, id: Id)
    ensures CountTo(a + b, id) == CountTo(a, id) + CountTo(b, id)
  {
    if a == [] {
      assert a + b == b;
    } else {
      assert (a + b)[1..] == a[1..] + b;
      CountToConcat(a[1..], b, id);
    }
  }

  /** A frame counted for `id` is one addressed to it. */
  lemma {:induction false} CountedFrameExists(fs: seq<Frame>, id: Id)
    requires CountTo(fs, id) > 0
    ensures exists i :: 0 <= i < |fs| && fs[i].to == id
  {
    if fs[0].to != id {
      CountedFrameExists(fs[1..], id);
      var i :| 0 <= i < |fs[1..]| && fs[1..][i].to == id;
      assert fs[i + 1].to == id;
    }
  }

  /** Every frame is counted for its addressee. */
  lemma {:induction false} CountToMember(fs: seq<Frame>, f: Frame)
    requires f in fs
    ensures CountTo(fs, f.to) > 0
  {
    if fs[0] != f {
      CountToMember(fs[1..], f);
    }
  }

  /** A fan-out over distinct targets reaches every open, connected target
      other than `skip` exactly once, and nobody else. */
  lemma {:induction false} FanReachesEachOnce(clients: map<Id, Client>, targets: seq<Id>, skip: Option<Id>, mk: Id -> Msg, stamp: Option<Id>)
    requires NoDup(targets)
    ensures forall t :: CountTo(Fan(clients, targets, skip, mk, stamp), t) ==
              if t in targets && Some(t) != skip && t in clients && clients[t].open then 1 else 0
  {
    if targets != [] {
      var rest := targets[1..];
      assert NoDup(rest) by {
        forall i, j | 0 <= i < j < |rest| ensures rest[i] != rest[j] {
          assert rest[i] == targets[i + 1] && rest[j] == targets[j + 1];
        }
      }
      assert targets[0] !in rest by {
        forall i | 0 <= i < |rest| ensures rest[i] != targets[0] {
          assert rest[i] == targets[i + 1];
        }
      }
      FanReachesEachOnce(clients, rest, skip, mk, stamp);
      var head := if Some(targets[0]) == skip then [] else Send(clients, targets[0], mk(targets[0]), stamp);
      forall t ensures CountTo(Fan(clients, targets, skip, mk, stamp), t) ==
                (if t in targets && Some(t) != skip && t in clients && clients[t].open then 1 else 0)
      {
        CountToConcat(head, Fan(clients, rest, skip, mk, stamp), t);
        assert t in targets <==> t == targets[0] || t in rest;
      }
    }
  }

  /** A fan-out depends on the clients only through which targets are
      connected and open. */
  lemma {:induction false} FanDependsOnlyOnOpen(c1: map<Id, Client>, c2: map<Id, Client>, targets: seq<Id>, skip: Option<Id>, mk: Id -> Msg, stamp: Option<Id>)
    requires forall t | t in targets :: (t in c1 && c1[t].open) == (t in c2 && c2[t].open)
    ensures Fan(c1, targets, skip, mk, stamp) == Fan(c2, targets, skip, mk, stamp)
  {
    if targets != [] {
      FanDependsOnlyOnOpen(c1, c2, targets[1..], skip, mk, stamp);
    }
  }

  /** `broadcast`: stamps the sender's id and sends to every other member of
      its session; without a session it throws and sends nothing. */
  function Broadcast(w: World, sender: Id, msg: Msg): (r: Result<seq<Frame>, Error>)
    requires Inv(w) && sender in w.clients
    ensures r.Failure? <==> w.clients[sender].session.None?
    ensures r.Failure? ==> r.error == NoSession
    ensures r.Success? ==> forall i | 0 <= i < |r.value| ::
              && r.value[i].to != sender
              && r.value[i].to in Peers(w, sender)
              && r.value[i].msg == msg
              && r.value[i].clientId == Some(sender)
  {
    match w.clients[sender].session
    case None => Failure(NoSession)
    case Some(ref) =>
      Success(Fan(w.clients, w.sessions[ref].members, Some(sender), _ => msg, Some(w.clients[sender].id)))
  }

  /** A broadcast reaches every other open member exactly once and never the
      sender. */
  lemma BroadcastReachesEachPeerOnce(w: World, sender: Id, msg: Msg)
    requires Inv(w) && sender in w.clients && w.clients[sender].session.Some?
    ensures Broadcast(w, sender, msg).Success?
    ensures forall t :: CountTo(Broadcast(w, sender, msg).value, t) ==
              if t in Peers(w, sender) && t != sender && w.clients[t].open then 1 else 0
  {
    var ref := w.clients[sender].session.value;
    FanReachesEachOnce(w.clients, w.sessions[ref].members, Some(sender), _ => msg, Some(sender));
  }
}
