/** A cluster of nodes whose registries are replicated over FIFO links: every step that can happen, and what all of
    them keep. */
module Cluster {
  import opened Bytes
  import opened Message
  import opened Registry

  /** One end of a connection has not been opened yet, waits for the other node's credentials, knows whose
      credentials it has seen, or has been closed. */
  datatype Status = Fresh | Anonymous | Authed(node: byte) | Closed

  /** An end of a connection at a node: the other end and the packets on their way to this one. */
  datatype Endpoint = Endpoint(node: byte, peer: nat, status: Status, inbox: seq<Packet>)

  datatype Net = Net(nodes: map<byte, Node>, ends: map<nat, Endpoint>)

  datatype Event =
    | Connect(k: nat, l: nat, x: byte, y: byte)
    | Open(k: nat)
    | Deliver(k: nat)
    | Close(k: nat)
    | CreateName(x: byte, name: string)
    | DropName(x: byte, name: string)

  /** The packets go to the other ends of the connections they were sent on. */
  function Posted(ends: map<nat, Endpoint>, out: seq<Sent>): map<nat, Endpoint> {
    map k | k in ends :: ends[k].(inbox := ends[k].inbox + To(out, ends[k].peer))
  }

  predicate Alive(net: Net, x: byte) {
    x in net.nodes && !net.nodes[x].stopped
  }

  // ---------------------------------------------------------------- steps

  ghost predicate DoesConnect(s: Net, t: Net, k: nat, l: nat, x: byte, y: byte) {
    && k !in s.ends && l !in s.ends && k != l && x in s.nodes && y in s.nodes && x != y
    && t == s.(ends := s.ends[k := Endpoint(x, l, Fresh, [])][l := Endpoint(y, k, Fresh, [])])
  }

  /** OnConnect: the node sends its credentials. */
  ghost predicate DoesOpen(s: Net, t: Net, k: nat) {
    && k in s.ends && s.ends[k].status.Fresh? && Alive(s, s.ends[k].node)
    && t == s.(ends := Posted(s.ends, [Sent(k, Auth(s.ends[k].node))])[k := s.ends[k].(status := Anonymous)])
  }

  ghost predicate DoesDeliver(s: Net, t: Net, k: nat) {
    && k in s.ends && s.ends[k].inbox != [] && Alive(s, s.ends[k].node)
    && var e := s.ends[k]; var p := e.inbox[0]; var rest := e.(inbox := e.inbox[1..]);
       match e.status
       case Fresh => false
       case Closed => false
       case Anonymous =>
         if p.Auth? && p.node in s.nodes then DoesAuth(s, t, k)
         else if p.Auth? then t == s.(ends := s.ends[k := rest.(status := Closed)])
         else t == s.(ends := s.ends[k := rest])
       case Authed(z) =>
         z in s.nodes && DoesReceive(s, t, k, z)
  }

  /** Credentials arrive. A node that is stopped by a second connection of the same node does nothing more. */
  ghost predicate DoesAuth(s: Net, t: Net, k: nat)
    requires k in s.ends && s.ends[k].inbox != [] && s.ends[k].inbox[0].Auth? && s.ends[k].node in s.nodes
  {
    var e := s.ends[k];
    var z := e.inbox[0].node;
    exists n, out ::
      && s.nodes[e.node].DidAuth(n, k, z, out)
      && t == Net(s.nodes[e.node := n],
                  if z in s.nodes[e.node].connectors then s.ends
                  else Posted(s.ends, out)[k := e.(inbox := e.inbox[1..], status := Authed(z))])
  }

  ghost predicate DoesReceive(s: Net, t: Net, k: nat, z: byte)
    requires k in s.ends && s.ends[k].inbox != [] && s.ends[k].node in s.nodes && z in s.nodes
  {
    var e := s.ends[k];
    exists n ::
      && s.nodes[e.node].DidReceive(n, s.nodes[z].info, e.inbox[0])
      && t == Net(s.nodes[e.node := n], s.ends[k := e.(inbox := e.inbox[1..])])
  }

  ghost predicate DoesClose(s: Net, t: Net, k: nat) {
    && k in s.ends && !s.ends[k].status.Closed? && Alive(s, s.ends[k].node)
    && var e := s.ends[k];
       if e.status.Authed? then
         exists n ::
           && s.nodes[e.node].DidClose(n, e.status.node)
           && t == Net(s.nodes[e.node := n], s.ends[k := e.(status := Closed)])
       else t == s.(ends := s.ends[k := e.(status := Closed)])
  }

  /** A mailbox is created or destroyed; a failed creation does what a destruction does. */
  ghost predicate DoesCreate(s: Net, t: Net, x: byte, name: string) {
    && Alive(s, x) && name != "" && '@' !in name
    && exists n, id, out ::
         && s.nodes[x].DidRegister(n, name, id, out)
         && t == Net(s.nodes[x := n], Posted(s.ends, out))
  }

  ghost predicate DoesDrop(s: Net, t: Net, x: byte, name: string) {
    && Alive(s, x) && name != "" && '@' !in name
    && exists n, out ::
         && s.nodes[x].DidUnregister(n, name, out)
         && t == Net(s.nodes[x := n], Posted(s.ends, out))
  }

  ghost predicate Step(s: Net, t: Net, e: Event) {
    match e
    case Connect(k, l, x, y) => DoesConnect(s, t, k, l, x, y)
    case Open(k) => DoesOpen(s, t, k)
    case Deliver(k) => DoesDeliver(s, t, k)
    case Close(k) => DoesClose(s, t, k)
    case CreateName(x, name) => DoesCreate(s, t, x, name)
    case DropName(x, name) => DoesDrop(s, t, x, name)
  }

  // ---------------------------------------------------------------- replaying the packets in flight

  datatype Option<T> = None | Some(value: T)

  function Get(named: Names, n: string): Option<MailboxID> {
    if n in named then Some(named[n]) else None
  }

  /** What a packet makes of the receiver's entry for one name of the sender. */
  function Apply(p: Packet, n: string, cur: Option<MailboxID>): Option<MailboxID> {
    match p
    case Register(m, id) => if m == n && cur.None? then Some(id) else cur
    case Unregister(m) => if m == n then None else cur
    case Auth(_) => cur
  }

  function Replay(q: seq<Packet>, n: string, cur: Option<MailboxID>): Option<MailboxID> {
    if q == [] then cur else Replay(q[1..], n, Apply(q[0], n, cur))
  }

  lemma {:induction false} ReplaySnoc(q: seq<Packet>, p: Packet, n: string, cur: Option<MailboxID>)
    ensures Replay(q + [p], n, cur) == Apply(p, n, Replay(q, n, cur))
    decreases |q|
  {
    if q == [] {
      assert q + [p] == [p] && [p][1..] == [];
    } else {
      assert (q + [p])[1..] == q[1..] + [p];
      ReplaySnoc(q[1..], p, n, Apply(q[0], n, cur));
    }
  }

  /** Once the packets `q` have arrived, the receiver's entries for the sender are the sender's own names. */
  ghost predicate Mirrors(q: seq<Packet>, receiver: Names, senderName: string, sender: Names) {
    forall n: string | '@' !in n :: Replay(q, n, Get(receiver, Qualified(n, senderName))) == Get(sender, n)
  }

  /** The same for a receiver without entries. */
  ghost predicate Rebuilds(q: seq<Packet>, sender: Names) {
    forall n: string | '@' !in n :: Replay(q, n, None) == Get(sender, n)
  }

  ghost predicate NothingOf(receiver: Names, senderName: string) {
    forall n: string | '@' !in n :: Qualified(n, senderName) !in receiver
  }

  // ---------------------------------------------------------------- the invariant

  /** A node's names: its own ones without '@', and other nodes' ones with the node's name behind it. */
  ghost predicate NamesOK(cfg: map<byte, string>, x: byte, named: Names) {
    forall key | key in named ::
      var z := named[key].nodeid;
      if z == x then '@' !in key else z in cfg && exists n :: '@' !in n && key == Qualified(n, cfg[z])
  }

  predicate PacketOK(p: Packet, sender: byte) {
    match p
    case Auth(z) => z == sender
    case Register(n, id) => '@' !in n && id.nodeid == sender
    case Unregister(n) => '@' !in n
  }

  predicate PacketsOK(ps: seq<Packet>, sender: byte) {
    forall i | 0 <= i < |ps| :: PacketOK(ps[i], sender)
  }

  /** The node's connections are exactly its ends with known credentials. */
  ghost predicate ConnsOK(ends: map<nat, Endpoint>, x: byte, connectors: map<byte, nat>) {
    && (forall z | z in connectors ::
          connectors[z] in ends && ends[connectors[z]].node == x && ends[connectors[z]].status == Authed(z))
    && (forall k | k in ends && ends[k].node == x && ends[k].status.Authed? ::
          ends[k].status.node in connectors && connectors[ends[k].status.node] == k)
  }

  /** A node has names only of the nodes it is connected with. */
  ghost predicate AbsentOK(cfg: map<byte, string>, x: byte, connectors: map<byte, nat>, named: Names) {
    forall z | z in cfg && z != x && z !in connectors :: NothingOf(named, cfg[z])
  }

  /** One direction of a connection, by the states of its two ends. */
  ghost predicate LinkState(rs: Status, ss: Status, inbox: seq<Packet>, receiver: Names, sender: byte, name: string,
                            sent: Names)
  {
    match ss
    case Closed => true
    case Fresh => inbox == [] && !rs.Authed?
    case Anonymous =>
      rs.Closed? || (if rs.Authed? then inbox == [] && NothingOf(receiver, name) else inbox == [Auth(sender)])
    case Authed(_) =>
      rs.Closed? || (if rs.Authed? then Mirrors(inbox, receiver, name, sent)
                     else inbox != [] && inbox[0] == Auth(sender) && Rebuilds(inbox[1..], sent))
  }

  /** Ends come in pairs, at different nodes; who has shown credentials is who is at the other end; what is on its way
      is consistent with what both ends know. */
  ghost predicate LinkOK(cfg: map<byte, string>, net: Net, k: nat) {
    && k in net.ends
    && var r := net.ends[k];
    && r.peer in net.ends && r.peer != k && net.ends[r.peer].peer == k
    && r.node in cfg && r.node in net.nodes
    && var s := net.ends[r.peer];
    && s.node in cfg && s.node in net.nodes && s.node != r.node
    && (r.status.Authed? ==> r.status.node == s.node)
    && PacketsOK(r.inbox, s.node)
    && LinkState(r.status, s.status, r.inbox, net.nodes[r.node].named, s.node, cfg[s.node], net.nodes[s.node].named)
  }

  ghost predicate Config(cfg: map<byte, string>) {
    forall x, y | x in cfg && y in cfg && x != y :: cfg[x] != cfg[y]
  }

  ghost predicate Inv(cfg: map<byte, string>, net: Net) {
    && Config(cfg) && net.nodes.Keys == cfg.Keys
    && (forall x | x in cfg :: net.nodes[x].info == Peer(x, cfg[x]) && NamesOK(cfg, x, net.nodes[x].named))
    && (forall x | x in cfg :: ConnsOK(net.ends, x, net.nodes[x].connectors))
    && (forall x | x in cfg :: AbsentOK(cfg, x, net.nodes[x].connectors, net.nodes[x].named))
    && (forall k | k in net.ends :: LinkOK(cfg, net, k))
  }

  // ---------------------------------------------------------------- qualified names

  /** A name without '@' can be told from the node's name. */
  lemma QualifiedInjective(a: string, x: string, b: string, y: string)
    requires '@' !in a && '@' !in b && Qualified(a, x) == Qualified(b, y)
    ensures a == b && x == y
  {
    var q := Qualified(a, x);
    assert q[|a|] == '@' && q[|b|] == '@';
    assert forall i | 0 <= i < |a| :: q[i] == a[i] && a[i] in a;
    assert forall i | 0 <= i < |b| :: q[i] == b[i] && b[i] in b;
    assert a == q[..|a|] == q[..|b|] == b && x == q[|a| + 1..] == q[|b| + 1..] == y;
  }

  lemma QualifiedHasAt(n: string, x: string)
    ensures '@' in Qualified(n, x)
  {
    assert Qualified(n, x)[|n|] == '@';
  }

  // ---------------------------------------------------------------- one direction of a link

  /** Changes to other names do not concern a link. */
  lemma LinkFrame(rs: Status, ss: Status, inbox: seq<Packet>, receiver: Names, sender: byte, name: string, sent: Names,
                  receiver': Names, sent': Names)
    requires LinkState(rs, ss, inbox, receiver, sender, name, sent)
    requires rs.Authed? ==> forall n: string | '@' !in n :: Get(receiver', Qualified(n, name)) == Get(receiver, Qualified(n, name))
    requires forall n: string | '@' !in n :: Get(sent', n) == Get(sent, n)
    ensures LinkState(rs, ss, inbox, receiver', sender, name, sent')
  {
    if rs.Authed? && ss.Anonymous? {
      forall n: string | '@' !in n
        ensures Qualified(n, name) !in receiver'
      {
        assert Get(receiver', Qualified(n, name)) == Get(receiver, Qualified(n, name));
      }
    }
  }

  /** The sender changes one of its names and says so. */
  lemma LinkSend(rs: Status, z: byte, inbox: seq<Packet>, receiver: Names, sender: byte, name: string, sent: Names,
                 p: Packet, sent': Names)
    requires LinkState(rs, Authed(z), inbox, receiver, sender, name, sent)
    requires forall n: string | '@' !in n :: Get(sent', n) == Apply(p, n, Get(sent, n))
    ensures LinkState(rs, Authed(z), inbox + [p], receiver, sender, name, sent')
  {
    if rs.Authed? {
      forall n: string | '@' !in n
        ensures Replay(inbox + [p], n, Get(receiver, Qualified(n, name))) == Get(sent', n)
      {
        ReplaySnoc(inbox, p, n, Get(receiver, Qualified(n, name)));
      }
    } else if !rs.Closed? {
      assert (inbox + [p])[1..] == inbox[1..] + [p];
      forall n: string | '@' !in n
        ensures Replay(inbox[1..] + [p], n, None) == Get(sent', n)
      {
        ReplaySnoc(inbox[1..], p, n, None);
      }
    }
  }

  /** The receiver applies a packet. */
  lemma LinkReceive(z: byte, ss: Status, inbox: seq<Packet>, receiver: Names, sender: byte, name: string, sent: Names,
                    receiver': Names)
    requires LinkState(Authed(z), ss, inbox, receiver, sender, name, sent) && inbox != []
    requires forall n: string | '@' !in n ::
        Get(receiver', Qualified(n, name)) == Apply(inbox[0], n, Get(receiver, Qualified(n, name)))
    ensures LinkState(Authed(z), ss, inbox[1..], receiver', sender, name, sent)
  {
  }

  /** The receiver has seen the credentials. */
  lemma LinkAuth(ss: Status, inbox: seq<Packet>, receiver: Names, sender: byte, name: string, sent: Names, z: byte)
    requires LinkState(Anonymous, ss, inbox, receiver, sender, name, sent) && inbox != [] && NothingOf(receiver, name)
    ensures LinkState(Authed(z), ss, inbox[1..], receiver, sender, name, sent)
  {
    if ss.Authed? {
      forall n: string | '@' !in n
        ensures Replay(inbox[1..], n, Get(receiver, Qualified(n, name))) == Get(sent, n)
      {
        assert Replay(inbox[1..], n, None) == Get(sent, n);
      }
    }
  }

  /** The sender has seen the credentials and sends all its names. */
  lemma LinkSync(rs: Status, inbox: seq<Packet>, receiver: Names, sender: byte, name: string, sent: Names,
                 ps: seq<Packet>, z: byte)
    requires LinkState(rs, Anonymous, inbox, receiver, sender, name, sent) && Rebuilds(ps, sent)
    ensures LinkState(rs, Authed(z), inbox + ps, receiver, sender, name, sent)
  {
    if rs.Authed? {
      assert inbox + ps == ps;
      forall n: string | '@' !in n
        ensures Replay(ps, n, Get(receiver, Qualified(n, name))) == Get(sent, n)
      {
        assert Qualified(n, name) !in receiver;
      }
    } else if !rs.Closed? {
      assert (inbox + ps)[1..] == ps;
    }
  }

  /** A full copy rebuilds the sender's own names. */
  lemma SyncRebuilds(cfg: map<byte, string>, ps: seq<Packet>, named: Names, x: byte)
    requires Syncs(ps, named, x) && NamesOK(cfg, x, named) && x in cfg
    ensures Rebuilds(ps, named) && PacketsOK(ps, x)
  {
    forall n: string | '@' !in n
      ensures Replay(ps, n, None) == Get(named, n)
    {
      if n in named {
        OwnName(cfg, x, named, n);
        var i :| 0 <= i < |ps| && ps[i].name == n;
        ReplayOfDistinct(ps, n, i);
      } else {
        ReplayOfOthers(ps, n, None);
      }
    }
  }

  lemma OwnName(cfg: map<byte, string>, x: byte, named: Names, n: string)
    requires NamesOK(cfg, x, named) && n in named && '@' !in n
    ensures named[n].nodeid == x
  {
    forall m: string, y: string
      ensures n != Qualified(m, y)
    {
      QualifiedHasAt(m, y);
    }
  }

  lemma {:induction false} ReplayOfOthers(ps: seq<Packet>, n: string, cur: Option<MailboxID>)
    requires forall i | 0 <= i < |ps| :: ps[i].Register? && ps[i].name != n
    ensures Replay(ps, n, cur) == cur
    decreases |ps|
  {
    if ps != [] {
      ReplayOfOthers(ps[1..], n, cur);
    }
  }

  lemma {:induction false} ReplayOfDistinct(ps: seq<Packet>, n: string, i: nat)
    requires i < |ps| && ps[i].Register? && ps[i].name == n
    requires forall j | 0 <= j < |ps| :: ps[j].Register? && (j != i ==> ps[j].name != n)
    ensures Replay(ps, n, None) == Some(ps[i].id)
    decreases |ps|
  {
    if i == 0 {
      ReplayOfOthers(ps[1..], n, Some(ps[0].id));
    } else {
      ReplayOfDistinct(ps[1..], n, i - 1);
    }
  }
}
