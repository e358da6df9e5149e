/** Every step of a cluster keeps the replication of the registries. */
module ClusterSafety {
  import opened Bytes
  import opened Message
  import opened Registry
  import opened Cluster

  /** What the invariant says about one link. */
  lemma LinkFacts(cfg: map<byte, string>, s: Net, k: nat)
    requires Inv(cfg, s) && k in s.ends
    ensures LinkOK(cfg, s, k) && LinkOK(cfg, s, s.ends[k].peer)
  {
    hide LinkState, NamesOK, AbsentOK, ConnsOK, PacketsOK;
    assert LinkOK(cfg, s, k);
  }

  /** The node's connections are the sending ends of the links that it writes to. */
  lemma WrittenTo(cfg: map<byte, string>, s: Net, x: byte, k: nat)
    requires Inv(cfg, s) && x in cfg && x in s.nodes && k in s.ends && s.ends[k].peer in s.ends
    ensures var e := s.ends[s.ends[k].peer];
      s.ends[k].peer in s.nodes[x].connectors.Values <==> e.node == x && e.status.Authed?
  {
    hide NamesOK, AbsentOK, LinkOK, PacketsOK;
    var l := s.ends[k].peer;
    var connectors := s.nodes[x].connectors;
    if l in connectors.Values {
      var z :| z in connectors && connectors[z] == l;
    }
    if s.ends[l].node == x && s.ends[l].status.Authed? {
      assert connectors[s.ends[l].status.node] == l;
    }
  }

  // ---------------------------------------------------------------- a node changes one of its own names

  /** The node `x` goes from `named` to `named'`, which changes one of its own names, and tells everybody: `p`. */
  ghost predicate Announces(cfg: map<byte, string>, s: Net, t: Net, x: byte, p: Packet, n: Node, out: seq<Sent>) {
    && x in cfg && x in s.nodes && n == s.nodes[x].(named := n.named)
    && (forall m: string | '@' !in m :: Get(n.named, m) == Apply(p, m, Get(s.nodes[x].named, m)))
    && (forall m: string | '@' in m :: Get(n.named, m) == Get(s.nodes[x].named, m))
    && PacketOK(p, x) && ToEach(out, s.nodes[x].connectors.Values, p)
    && t == Net(s.nodes[x := n], Posted(s.ends, out))
  }

  lemma AnnounceLink(cfg: map<byte, string>, s: Net, t: Net, x: byte, p: Packet, n: Node, out: seq<Sent>, k: nat)
    requires Inv(cfg, s) && Announces(cfg, s, t, x, p, n, out) && k in s.ends
    ensures LinkOK(cfg, t, k)
  {
    hide Inv, LinkState, Apply, PacketOK, PacketsOK, To;
    LinkFacts(cfg, s, k);
    WrittenTo(cfg, s, x, k);
    var r := s.ends[k];
    var e := s.ends[r.peer];
    var sent := if e.node == x && e.status.Authed? then [p] else [];
    assert To(out, r.peer) == sent;
    OnePacketMore(r.inbox, sent, p, e.node, x);
    AnnounceState(cfg, r, e, s.nodes[r.node].named, s.nodes[e.node].named, x, p,
                  t.nodes[r.node].named, t.nodes[e.node].named);
  }

  lemma OnePacketMore(inbox: seq<Packet>, sent: seq<Packet>, p: Packet, sender: byte, x: byte)
    requires PacketsOK(inbox, sender) && PacketOK(p, x) && (sent == [] || (sent == [p] && sender == x))
    ensures PacketsOK(inbox + sent, sender)
  {
    hide PacketOK;
  }

  lemma AnnounceState(cfg: map<byte, string>, r: Endpoint, e: Endpoint, receiver: Names, sent: Names, x: byte,
                      p: Packet, receiver': Names, sent': Names)
    requires e.node in cfg
    requires LinkState(r.status, e.status, r.inbox, receiver, e.node, cfg[e.node], sent)
    requires forall m: string | '@' in m :: Get(receiver', m) == Get(receiver, m)
    requires forall m: string | '@' !in m :: Get(sent', m) == if e.node == x then Apply(p, m, Get(sent, m)) else Get(sent, m)
    requires e.node == x ==> receiver' == receiver
    ensures LinkState(r.status, e.status, r.inbox + if e.node == x && e.status.Authed? then [p] else [], receiver', e.node,
                      cfg[e.node], sent')
  {
    hide LinkState, Apply, Qualified;
    assert r.inbox + [] == r.inbox;
    if e.node == x && e.status.Authed? {
      LinkSend(r.status, e.status.node, r.inbox, receiver, e.node, cfg[e.node], sent, p, sent');
    } else if e.node == x {
      QuietSender(r.status, e.status, r.inbox, receiver, e.node, cfg[e.node], sent, sent');
    } else {
      forall m: string
        ensures '@' in Qualified(m, cfg[e.node])
      {
        QualifiedHasAt(m, cfg[e.node]);
      }
      LinkFrame(r.status, e.status, r.inbox, receiver, e.node, cfg[e.node], sent, receiver', sent');
    }
  }

  /** A sender that has not seen the other's credentials has sent nothing about its names. */
  lemma QuietSender(rs: Status, ss: Status, inbox: seq<Packet>, receiver: Names, sender: byte, name: string, sent: Names,
                    sent': Names)
    requires LinkState(rs, ss, inbox, receiver, sender, name, sent) && !ss.Authed?
    ensures LinkState(rs, ss, inbox, receiver, sender, name, sent')
  {
  }

  /** Connections depend on who is where in which state only. */
  lemma ConnsFrame(ends: map<nat, Endpoint>, ends': map<nat, Endpoint>, x: byte, connectors: map<byte, nat>)
    requires ConnsOK(ends, x, connectors) && ends'.Keys == ends.Keys
    requires forall k | k in ends :: ends'[k].node == ends[k].node && ends'[k].status == ends[k].status
    ensures ConnsOK(ends', x, connectors)
  {
    assert forall k :: k in ends' <==> k in ends;
  }

  lemma AbsentFrame(cfg: map<byte, string>, x: byte, connectors: map<byte, nat>, named: Names, named': Names)
    requires AbsentOK(cfg, x, connectors, named)
    requires forall m: string | '@' in m :: Get(named', m) == Get(named, m)
    ensures AbsentOK(cfg, x, connectors, named')
  {
    forall z, m: string | z in cfg && z != x && z !in connectors && '@' !in m
      ensures Qualified(m, cfg[z]) !in named'
    {
      assert NothingOf(named, cfg[z]);
      QualifiedHasAt(m, cfg[z]);
      assert Get(named', Qualified(m, cfg[z])) == Get(named, Qualified(m, cfg[z])) == None;
    }
  }

  /** What the invariant says about one node. */
  lemma NodeFacts(cfg: map<byte, string>, s: Net, x: byte)
    requires Inv(cfg, s) && x in cfg
    ensures Config(cfg) && s.nodes.Keys == cfg.Keys
    ensures x in s.nodes && s.nodes[x].info == Peer(x, cfg[x]) && NamesOK(cfg, x, s.nodes[x].named)
    ensures ConnsOK(s.ends, x, s.nodes[x].connectors) && AbsentOK(cfg, x, s.nodes[x].connectors, s.nodes[x].named)
  {
  }

  /** The invariant from its parts. */
  lemma InvFrom(cfg: map<byte, string>, t: Net)
    requires Config(cfg) && t.nodes.Keys == cfg.Keys
    requires forall x | x in cfg :: t.nodes[x].info == Peer(x, cfg[x]) && NamesOK(cfg, x, t.nodes[x].named)
    requires forall x | x in cfg :: ConnsOK(t.ends, x, t.nodes[x].connectors)
    requires forall x | x in cfg :: AbsentOK(cfg, x, t.nodes[x].connectors, t.nodes[x].named)
    requires forall k | k in t.ends :: LinkOK(cfg, t, k)
    ensures Inv(cfg, t)
  {
  }

  lemma AnnounceNode(cfg: map<byte, string>, s: Net, t: Net, x: byte, p: Packet, n: Node, out: seq<Sent>)
    requires Inv(cfg, s) && Announces(cfg, s, t, x, p, n, out) && NamesOK(cfg, x, n.named)
    ensures Inv(cfg, t)
  {
    hide Inv, LinkOK, Apply, To, ConnsOK, AbsentOK, NamesOK, Config, ToEach;
    NodeFacts(cfg, s, x);
    forall k | k in t.ends
      ensures LinkOK(cfg, t, k)
    {
      AnnounceLink(cfg, s, t, x, p, n, out, k);
    }
    forall y | y in cfg
      ensures t.nodes[y].info == Peer(y, cfg[y]) && NamesOK(cfg, y, t.nodes[y].named)
      ensures ConnsOK(t.ends, y, t.nodes[y].connectors) && AbsentOK(cfg, y, t.nodes[y].connectors, t.nodes[y].named)
    {
      NodeFacts(cfg, s, y);
      ConnsFrame(s.ends, t.ends, y, s.nodes[y].connectors);
      if y == x {
        AbsentFrame(cfg, x, n.connectors, s.nodes[x].named, n.named);
      }
    }
    InvFrom(cfg, t);
  }

  /** A new name. */
  lemma CreateKeeps(cfg: map<byte, string>, s: Net, t: Net, x: byte, name: string)
    requires Inv(cfg, s) && DoesCreate(s, t, x, name)
    ensures Inv(cfg, t)
  {
    hide Inv, ToEach, AbsentOK, ConnsOK, Config;
    var n, id, out :| s.nodes[x].DidRegister(n, name, id, out) && t == Net(s.nodes[x := n], Posted(s.ends, out));
    KeysAreConfig(cfg, s);
    NodeFacts(cfg, s, x);
    AnnounceNode(cfg, s, t, x, Register(name, id), n, out);
  }

  /** A name goes, whether it was there or not. */
  lemma DropKeeps(cfg: map<byte, string>, s: Net, t: Net, x: byte, name: string)
    requires Inv(cfg, s) && DoesDrop(s, t, x, name)
    ensures Inv(cfg, t)
  {
    hide Inv, ToEach, AbsentOK, ConnsOK, Config;
    var n, out :| s.nodes[x].DidUnregister(n, name, out) && t == Net(s.nodes[x := n], Posted(s.ends, out));
    KeysAreConfig(cfg, s);
    NodeFacts(cfg, s, x);
    AnnounceNode(cfg, s, t, x, Unregister(name), n, out);
  }

  lemma KeysAreConfig(cfg: map<byte, string>, s: Net)
    requires Inv(cfg, s)
    ensures s.nodes.Keys == cfg.Keys && Config(cfg)
  {
  }

  // ---------------------------------------------------------------- connections are made

  lemma ConnectKeeps(cfg: map<byte, string>, s: Net, t: Net, k: nat, l: nat, x: byte, y: byte)
    requires Inv(cfg, s) && DoesConnect(s, t, k, l, x, y)
    ensures Inv(cfg, t)
  {
    hide Inv, LinkOK, ConnsOK, AbsentOK, NamesOK, Config;
    KeysAreConfig(cfg, s);
    forall j | j in t.ends
      ensures LinkOK(cfg, t, j)
    {
      if j in s.ends {
        OldLink(cfg, s, t, j);
      } else {
        NewLink(cfg, t, j);
      }
    }
    forall z | z in cfg
      ensures ConnsOK(t.ends, z, t.nodes[z].connectors)
    {
      NodeFacts(cfg, s, z);
      ConnsNew(s.ends, t.ends, z, s.nodes[z].connectors);
    }
    NodesStay(cfg, s, t);
    InvFrom(cfg, t);
  }

  lemma OldLink(cfg: map<byte, string>, s: Net, t: Net, j: nat)
    requires Inv(cfg, s) && t.nodes == s.nodes && j in s.ends
    requires forall k | k in s.ends :: k in t.ends && t.ends[k] == s.ends[k]
    ensures LinkOK(cfg, t, j)
  {
    hide Inv, LinkState, PacketsOK;
    LinkFacts(cfg, s, j);
  }

  lemma NewLink(cfg: map<byte, string>, t: Net, j: nat)
    requires j in t.ends && t.ends[j].status.Fresh? && t.ends[j].inbox == []
    requires var r := t.ends[j];
      && r.peer in t.ends && r.peer != j && t.ends[r.peer].peer == j && t.ends[r.peer].status.Fresh?
      && r.node in cfg && r.node in t.nodes && t.ends[r.peer].node in cfg && t.ends[r.peer].node in t.nodes
      && t.ends[r.peer].node != r.node
    ensures LinkOK(cfg, t, j)
  {
  }

  lemma ConnsNew(ends: map<nat, Endpoint>, ends': map<nat, Endpoint>, x: byte, connectors: map<byte, nat>)
    requires ConnsOK(ends, x, connectors)
    requires forall k | k in ends :: k in ends' && ends'[k].node == ends[k].node && ends'[k].status == ends[k].status
    requires forall k | k in ends' && k !in ends :: !ends'[k].status.Authed?
    ensures ConnsOK(ends', x, connectors)
  {
  }

  lemma NodesStay(cfg: map<byte, string>, s: Net, t: Net)
    requires Inv(cfg, s) && t.nodes == s.nodes
    ensures Config(cfg) && t.nodes.Keys == cfg.Keys
    ensures forall x | x in cfg :: t.nodes[x].info == Peer(x, cfg[x]) && NamesOK(cfg, x, t.nodes[x].named)
    ensures forall x | x in cfg :: AbsentOK(cfg, x, t.nodes[x].connectors, t.nodes[x].named)
  {
  }

  /** Only the other end of `k` gets what is sent on `k`. */
  lemma SentOnOne(cfg: map<byte, string>, s: Net, k: nat, j: nat)
    requires Inv(cfg, s) && k in s.ends && j in s.ends
    ensures s.ends[j].peer == k <==> s.ends[k].peer == j
  {
    LinkFacts(cfg, s, k);
    LinkFacts(cfg, s, j);
  }

  lemma OpenKeeps(cfg: map<byte, string>, s: Net, t: Net, k: nat)
    requires Inv(cfg, s) && DoesOpen(s, t, k)
    ensures Inv(cfg, t)
  {
    hide Inv, LinkOK, ConnsOK, AbsentOK, NamesOK, Config;
    KeysAreConfig(cfg, s);
    forall j | j in t.ends
      ensures LinkOK(cfg, t, j)
    {
      OpenLink(cfg, s, t, k, j);
    }
    forall z | z in cfg
      ensures ConnsOK(t.ends, z, t.nodes[z].connectors)
    {
      NodeFacts(cfg, s, z);
      ConnsQuiet(s.ends, t.ends, z, s.nodes[z].connectors);
    }
    NodesStay(cfg, s, t);
    InvFrom(cfg, t);
  }

  /** No end gains or loses its credentials. */
  lemma ConnsQuiet(ends: map<nat, Endpoint>, ends': map<nat, Endpoint>, x: byte, connectors: map<byte, nat>)
    requires ConnsOK(ends, x, connectors) && ends'.Keys == ends.Keys
    requires forall k | k in ends ::
        && ends'[k].node == ends[k].node
        && (ends'[k].status == ends[k].status || (!ends[k].status.Authed? && !ends'[k].status.Authed?))
    ensures ConnsOK(ends', x, connectors)
  {
    assert forall k :: k in ends' <==> k in ends;
  }

  lemma OpenLink(cfg: map<byte, string>, s: Net, t: Net, k: nat, j: nat)
    requires Inv(cfg, s) && DoesOpen(s, t, k) && j in s.ends
    ensures LinkOK(cfg, t, j)
  {
    hide Inv, Mirrors, Rebuilds, NothingOf;
    LinkFacts(cfg, s, j);
    SentOnOne(cfg, s, k, j);
    var r := s.ends[j];
    var out := [Sent(k, Auth(s.ends[k].node))];
    assert To(out, r.peer) == if r.peer == k then [Auth(s.ends[k].node)] else [];
    assert r.inbox + [] == r.inbox;
  }

  // ---------------------------------------------------------------- a node learns or forgets another node's names

  /** Only names of the node called `name` differ. */
  ghost predicate OnlyNamesOf(named: Names, named': Names, name: string) {
    forall key | Get(named', key) != Get(named, key) :: exists m :: '@' !in m && key == Qualified(m, name)
  }

  lemma OthersSame(named: Names, named': Names, name: string, other: string)
    requires OnlyNamesOf(named, named', name) && other != name
    ensures forall m: string | '@' !in m :: Get(named', Qualified(m, other)) == Get(named, Qualified(m, other))
    ensures forall m: string | '@' !in m :: Get(named', m) == Get(named, m)
  {
    hide Qualified;
    forall m: string | '@' !in m
      ensures Get(named', Qualified(m, other)) == Get(named, Qualified(m, other))
    {
      forall a: string | '@' !in a
        ensures Qualified(a, name) != Qualified(m, other)
      {
        if Qualified(a, name) == Qualified(m, other) {
          QualifiedInjective(a, name, m, other);
        }
      }
    }
    forall m: string | '@' !in m
      ensures Get(named', m) == Get(named, m)
    {
      forall a: string
        ensures Qualified(a, name) != m
      {
        QualifiedHasAt(a, name);
      }
    }
  }

  /** The links that do not end in `k` do not notice when the node of `k` changes names of the node `z` behind `k`. */
  lemma OtherLink(cfg: map<byte, string>, s: Net, t: Net, k: nat, z: byte, j: nat)
    requires Inv(cfg, s) && k in s.ends && s.ends[k].status == Authed(z) && j in s.ends && j != k && z in cfg
    requires s.ends[k].node in cfg && t.nodes.Keys == s.nodes.Keys
    requires forall y | y in s.nodes && y != s.ends[k].node :: t.nodes[y] == s.nodes[y]
    requires s.ends[k].node in s.nodes
    requires OnlyNamesOf(s.nodes[s.ends[k].node].named, t.nodes[s.ends[k].node].named, cfg[z])
    requires t.ends.Keys == s.ends.Keys && forall i | i in s.ends && i != k :: t.ends[i] == s.ends[i]
    requires t.ends[k].node == s.ends[k].node && t.ends[k].peer == s.ends[k].peer
    requires t.ends[k].status == s.ends[k].status || t.ends[k].status.Closed?
    ensures LinkOK(cfg, t, j)
  {
    hide Inv, LinkState, PacketsOK, OnlyNamesOf, Get, Qualified;
    LinkFacts(cfg, s, j);
    LinkFacts(cfg, s, k);
    KeysAreConfig(cfg, s);
    var x := s.ends[k].node;
    var r := s.ends[j];
    var e := s.ends[r.peer];
    assert j in t.ends;
    OneConnection(cfg, s, k, j);
    if e.node != z {
      OthersSame(s.nodes[x].named, t.nodes[x].named, cfg[z], cfg[e.node]);
    } else {
      OwnSame(s.nodes[x].named, t.nodes[x].named, cfg[z]);
    }
    if r.peer == k && t.ends[k].status.Closed? {
      ClosedSender(r.status, r.inbox, t.nodes[r.node].named, e.node, cfg[e.node], t.nodes[e.node].named);
    } else {
      LinkFrame(r.status, e.status, r.inbox, s.nodes[r.node].named, e.node, cfg[e.node], s.nodes[e.node].named,
                t.nodes[r.node].named, t.nodes[e.node].named);
    }
  }

  lemma OwnSame(named: Names, named': Names, name: string)
    requires OnlyNamesOf(named, named', name)
    ensures forall m: string | '@' !in m :: Get(named', m) == Get(named, m)
  {
    OthersSame(named, named', name, name + "?");
  }

  lemma ClosedSender(rs: Status, inbox: seq<Packet>, receiver: Names, sender: byte, name: string, sent: Names)
    ensures LinkState(rs, Closed, inbox, receiver, sender, name, sent)
  {
  }

  /** A node has one connection with known credentials to another node. */
  lemma OneConnection(cfg: map<byte, string>, s: Net, k: nat, j: nat)
    requires Inv(cfg, s) && k in s.ends && j in s.ends && s.ends[k].node in cfg
    ensures s.ends[k].node == s.ends[j].node && s.ends[k].status.Authed? && s.ends[j].status == s.ends[k].status ==> j == k
  {
    NodeFacts(cfg, s, s.ends[k].node);
  }

  /** A registration or its withdrawal arrives. */
  lemma ReceiveKeeps(cfg: map<byte, string>, s: Net, t: Net, k: nat, z: byte)
    requires Inv(cfg, s) && k in s.ends && s.ends[k].inbox != [] && s.ends[k].node in s.nodes && z in s.nodes
    requires s.ends[k].status == Authed(z) && DoesReceive(s, t, k, z)
    ensures Inv(cfg, t)
  {
    hide Inv, LinkOK, ConnsOK, AbsentOK, NamesOK, Config, OnlyNamesOf, PacketsOK, Get, Apply;
    var e := s.ends[k];
    var x, p := e.node, e.inbox[0];
    var n :| s.nodes[x].DidReceive(n, s.nodes[z].info, p) && t == Net(s.nodes[x := n], s.ends[k := e.(inbox := e.inbox[1..])]);
    KeysAreConfig(cfg, s);
    NodeFacts(cfg, s, x);
    NodeFacts(cfg, s, z);
    FirstPacket(cfg, s, k, z);
    ReceiveNames(cfg, x, z, s.nodes[x], n, p);
    forall j | j in t.ends
      ensures LinkOK(cfg, t, j)
    {
      if j == k {
        ReceivingLink(cfg, s, t, k, z);
      } else {
        OtherLink(cfg, s, t, k, z, j);
      }
    }
    ReceiveAbsent(cfg, s, k, z, n);
    ConnsFrame(s.ends, t.ends, x, n.connectors);
    forall y | y in cfg && y != x
      ensures ConnsOK(t.ends, y, s.nodes[y].connectors)
    {
      NodeFacts(cfg, s, y);
      ConnsFrame(s.ends, t.ends, y, s.nodes[y].connectors);
    }
    OneNodeChanged(cfg, s, t, x);
  }

  /** The invariant from its parts when only node `x` has changed. */
  lemma OneNodeChanged(cfg: map<byte, string>, s: Net, t: Net, x: byte)
    requires Inv(cfg, s) && x in cfg && t.nodes.Keys == s.nodes.Keys == cfg.Keys
    requires forall y | y in cfg && y != x :: t.nodes[y] == s.nodes[y]
    requires t.nodes[x].info == s.nodes[x].info && NamesOK(cfg, x, t.nodes[x].named)
    requires AbsentOK(cfg, x, t.nodes[x].connectors, t.nodes[x].named)
    requires ConnsOK(t.ends, x, t.nodes[x].connectors)
    requires forall y | y in cfg && y != x :: ConnsOK(t.ends, y, s.nodes[y].connectors)
    requires forall k | k in t.ends :: LinkOK(cfg, t, k)
    ensures Inv(cfg, t)
  {
    hide LinkOK, ConnsOK, AbsentOK, NamesOK;
  }

  lemma FirstPacket(cfg: map<byte, string>, s: Net, k: nat, z: byte)
    requires Inv(cfg, s) && k in s.ends && s.ends[k].status == Authed(z) && s.ends[k].inbox != []
    ensures PacketOK(s.ends[k].inbox[0], z) && s.ends[k].node != z && s.ends[k].node in cfg && z in cfg
    ensures s.ends[k].peer in s.ends && s.ends[s.ends[k].peer].node == z && PacketsOK(s.ends[k].inbox, z)
  {
    hide Inv;
    LinkFacts(cfg, s, k);
  }

  lemma ReceiveNames(cfg: map<byte, string>, x: byte, z: byte, o: Node, n: Node, p: Packet)
    requires x in cfg && z in cfg && x != z && o.info.id == x && NamesOK(cfg, x, o.named)
    requires o.DidReceive(n, Peer(z, cfg[z]), p) && PacketOK(p, z)
    ensures n == o.(named := n.named) && NamesOK(cfg, x, n.named) && OnlyNamesOf(o.named, n.named, cfg[z])
    ensures forall m: string | '@' !in m ::
        Get(n.named, Qualified(m, cfg[z])) == Apply(p, m, Get(o.named, Qualified(m, cfg[z])))
  {
    forall m: string, a: string | '@' !in m && '@' !in a && Qualified(m, cfg[z]) == Qualified(a, cfg[z])
      ensures m == a
    {
      QualifiedInjective(m, cfg[z], a, cfg[z]);
    }
  }

  lemma ReceivingLink(cfg: map<byte, string>, s: Net, t: Net, k: nat, z: byte)
    requires Inv(cfg, s) && k in s.ends && s.ends[k].inbox != [] && s.ends[k].node in s.nodes && z in cfg
    requires s.ends[k].status == Authed(z) && s.ends[k].peer in s.ends && s.ends[s.ends[k].peer].node == z
    requires t.nodes.Keys == s.nodes.Keys && forall y | y in s.nodes && y != s.ends[k].node :: t.nodes[y] == s.nodes[y]
    requires t.ends == s.ends[k := s.ends[k].(inbox := s.ends[k].inbox[1..])]
    requires forall m: string | '@' !in m ::
        Get(t.nodes[s.ends[k].node].named, Qualified(m, cfg[z]))
          == Apply(s.ends[k].inbox[0], m, Get(s.nodes[s.ends[k].node].named, Qualified(m, cfg[z])))
    ensures LinkOK(cfg, t, k)
  {
    hide Inv, LinkState, Apply, Get, Qualified;
    LinkFacts(cfg, s, k);
    KeysAreConfig(cfg, s);
    var r := s.ends[k];
    var e := s.ends[r.peer];
    LinkReceive(z, e.status, r.inbox, s.nodes[r.node].named, e.node, cfg[e.node], s.nodes[e.node].named,
                t.nodes[r.node].named);
    PacketsTail(r.inbox, e.node);
  }

  lemma PacketsTail(ps: seq<Packet>, sender: byte)
    requires PacketsOK(ps, sender) && ps != []
    ensures PacketsOK(ps[1..], sender)
  {
  }

  /** The sender's names are there for a reason: there is a connection to it. */
  lemma ReceiveAbsent(cfg: map<byte, string>, s: Net, k: nat, z: byte, n: Node)
    requires Inv(cfg, s) && k in s.ends && s.ends[k].status == Authed(z) && s.ends[k].node in cfg && z in cfg
    requires s.ends[k].node in s.nodes && n.connectors == s.nodes[s.ends[k].node].connectors
    requires OnlyNamesOf(s.nodes[s.ends[k].node].named, n.named, cfg[z])
    ensures AbsentOK(cfg, s.ends[k].node, n.connectors, n.named)
  {
    hide OnlyNamesOf, LinkOK, NamesOK, Get;
    var x := s.ends[k].node;
    NodeFacts(cfg, s, x);
    assert z in n.connectors;
    forall y | y in cfg && y != x && y !in n.connectors
      ensures NothingOf(n.named, cfg[y])
    {
      OthersSame(s.nodes[x].named, n.named, cfg[z], cfg[y]);
      StillNothing(s.nodes[x].named, n.named, cfg[y]);
    }
  }

  lemma StillNothing(named: Names, named': Names, name: string)
    requires NothingOf(named, name)
    requires forall m: string | '@' !in m :: Get(named', Qualified(m, name)) == Get(named, Qualified(m, name))
    ensures NothingOf(named', name)
  {
    forall m: string | '@' !in m
      ensures Qualified(m, name) !in named'
    {
      assert Get(named', Qualified(m, name)) == None;
    }
  }

  /** A connection is closed: the names of the node behind it go. */
  lemma CloseKeeps(cfg: map<byte, string>, s: Net, t: Net, k: nat)
    requires Inv(cfg, s) && DoesClose(s, t, k)
    ensures Inv(cfg, t)
  {
    hide Inv;
    LinkFacts(cfg, s, k);
    if s.ends[k].status.Authed? {
      CloseKnown(cfg, s, t, k, s.ends[k].status.node);
    } else {
      CloseUnknown(cfg, s, t, k);
    }
  }

  lemma CloseKnown(cfg: map<byte, string>, s: Net, t: Net, k: nat, z: byte)
    requires Inv(cfg, s) && k in s.ends && s.ends[k].status == Authed(z) && DoesClose(s, t, k)
    ensures Inv(cfg, t)
  {
    hide Inv, LinkOK, ConnsOK, AbsentOK, NamesOK, Config, OnlyNamesOf, Purged;
    var e := s.ends[k];
    var x := e.node;
    var n :| s.nodes[x].DidClose(n, z) && t == Net(s.nodes[x := n], s.ends[k := e.(status := Closed)]);
    KeysAreConfig(cfg, s);
    EndNode(cfg, s, k, z);
    NodeFacts(cfg, s, x);
    PurgedNames(cfg, x, z, s.nodes[x].connectors, s.nodes[x].named);
    forall j | j in t.ends
      ensures LinkOK(cfg, t, j)
    {
      if j == k {
        ClosedLink(cfg, s, t, k);
      } else {
        OtherLink(cfg, s, t, k, z, j);
      }
    }
    ConnsClosed(s.ends, k, x, s.nodes[x].connectors, z);
    forall y | y in cfg && y != x
      ensures ConnsOK(t.ends, y, s.nodes[y].connectors)
    {
      NodeFacts(cfg, s, y);
      ConnsElsewhere(s.ends, t.ends, k, y, s.nodes[y].connectors);
    }
    OneNodeChanged(cfg, s, t, x);
  }

  lemma EndNode(cfg: map<byte, string>, s: Net, k: nat, z: byte)
    requires Inv(cfg, s) && k in s.ends && s.ends[k].status == Authed(z)
    ensures s.ends[k].node in cfg && z in cfg && s.ends[k].node != z
  {
    hide Inv;
    LinkFacts(cfg, s, k);
  }

  lemma PurgedNames(cfg: map<byte, string>, x: byte, z: byte, connectors: map<byte, nat>, named: Names)
    requires Config(cfg) && x in cfg && z in cfg && x != z && NamesOK(cfg, x, named) && AbsentOK(cfg, x, connectors, named)
    ensures OnlyNamesOf(named, Purged(named, z), cfg[z]) && NamesOK(cfg, x, Purged(named, z))
    ensures AbsentOK(cfg, x, connectors - {z}, Purged(named, z))
  {
    var after := Purged(named, z);
    forall y, m: string | y in cfg && y != x && y !in connectors - {z} && '@' !in m
      ensures Qualified(m, cfg[y]) !in after
    {
      if y == z {
        NameOfNode(cfg, x, named, m, z);
      } else {
        assert NothingOf(named, cfg[y]);
      }
    }
  }

  /** An entry for a name of the node `z` carries the node's id. */
  lemma NameOfNode(cfg: map<byte, string>, x: byte, named: Names, m: string, z: byte)
    requires Config(cfg) && x in cfg && z in cfg && NamesOK(cfg, x, named) && '@' !in m
    ensures Qualified(m, cfg[z]) in named ==> named[Qualified(m, cfg[z])].nodeid == z
  {
    var key := Qualified(m, cfg[z]);
    QualifiedHasAt(m, cfg[z]);
    if key in named {
      var y := named[key].nodeid;
      var a :| '@' !in a && key == Qualified(a, cfg[y]);
      QualifiedInjective(a, cfg[y], m, cfg[z]);
    }
  }

  lemma ClosedLink(cfg: map<byte, string>, s: Net, t: Net, k: nat)
    requires Inv(cfg, s) && k in s.ends && t.ends == s.ends[k := s.ends[k].(status := Closed)]
    requires t.nodes.Keys == s.nodes.Keys
    ensures LinkOK(cfg, t, k)
  {
    hide Inv, Mirrors, Rebuilds, NothingOf, PacketsOK;
    LinkFacts(cfg, s, k);
    KeysAreConfig(cfg, s);
  }

  lemma ConnsClosed(ends: map<nat, Endpoint>, k: nat, x: byte, connectors: map<byte, nat>, z: byte)
    requires ConnsOK(ends, x, connectors) && k in ends && ends[k].node == x && ends[k].status == Authed(z)
    ensures ConnsOK(ends[k := ends[k].(status := Closed)], x, connectors - {z})
  {
  }

  /** Only an end at another node has changed. */
  lemma ConnsElsewhere(ends: map<nat, Endpoint>, ends': map<nat, Endpoint>, k: nat, y: byte, connectors: map<byte, nat>)
    requires ConnsOK(ends, y, connectors) && ends'.Keys == ends.Keys && k in ends && ends[k].node != y
    requires ends'[k].node == ends[k].node
    requires forall i | i in ends && i != k :: ends'[i].node == ends[i].node && ends'[i].status == ends[i].status
    ensures ConnsOK(ends', y, connectors)
  {
    assert forall i :: i in ends' <==> i in ends;
  }

  lemma CloseUnknown(cfg: map<byte, string>, s: Net, t: Net, k: nat)
    requires Inv(cfg, s) && DoesClose(s, t, k) && !s.ends[k].status.Authed?
    ensures Inv(cfg, t)
  {
    hide Inv, LinkOK, ConnsOK, AbsentOK, NamesOK, Config;
    KeysAreConfig(cfg, s);
    forall j | j in t.ends
      ensures LinkOK(cfg, t, j)
    {
      if j == k {
        ClosedLink(cfg, s, t, k);
      } else {
        SenderClosed(cfg, s, t, k, j);
      }
    }
    forall y | y in cfg
      ensures ConnsOK(t.ends, y, s.nodes[y].connectors)
    {
      NodeFacts(cfg, s, y);
      ConnsQuiet(s.ends, t.ends, y, s.nodes[y].connectors);
    }
    NodesStay(cfg, s, t);
    InvFrom(cfg, t);
  }

  lemma SenderClosed(cfg: map<byte, string>, s: Net, t: Net, k: nat, j: nat)
    requires Inv(cfg, s) && k in s.ends && j in s.ends && j != k && t.nodes == s.nodes
    requires t.ends == s.ends[k := s.ends[k].(status := Closed)]
    ensures LinkOK(cfg, t, j)
  {
    hide Inv, Mirrors, Rebuilds, NothingOf, PacketsOK;
    LinkFacts(cfg, s, j);
  }

  // ---------------------------------------------------------------- credentials arrive

  lemma AuthKeeps(cfg: map<byte, string>, s: Net, t: Net, k: nat)
    requires Inv(cfg, s) && k in s.ends && s.ends[k].status.Anonymous? && s.ends[k].inbox != []
    requires s.ends[k].inbox[0].Auth? && s.ends[k].node in s.nodes && DoesAuth(s, t, k)
    ensures Inv(cfg, t)
  {
    hide Inv, ToOne, Syncs, Silent, LinkOK, Posted;
    var e := s.ends[k];
    var z := e.inbox[0].node;
    var n, out :| s.nodes[e.node].DidAuth(n, k, z, out)
      && t == Net(s.nodes[e.node := n],
                  if z in s.nodes[e.node].connectors then s.ends
                  else Posted(s.ends, out)[k := e.(inbox := e.inbox[1..], status := Authed(z))]);
    KeysAreConfig(cfg, s);
    if z in s.nodes[e.node].connectors {
      StopKeeps(cfg, s, t, e.node);
    } else {
      var ps :| Syncs(ps, s.nodes[e.node].named, s.nodes[e.node].info.id) && ToOne(out, k, ps);
      JoinKeeps(cfg, s, t, k, z, n, out, ps);
    }
  }

  /** A node that stops changes nothing. */
  lemma StopKeeps(cfg: map<byte, string>, s: Net, t: Net, x: byte)
    requires Inv(cfg, s) && x in s.nodes && t == s.(nodes := s.nodes[x := s.nodes[x].(stopped := true)])
    ensures Inv(cfg, t)
  {
    hide ConnsOK, AbsentOK, NamesOK, Config, LinkState, PacketsOK;
    forall j | j in t.ends
      ensures LinkOK(cfg, t, j)
    {
      assert LinkOK(cfg, s, j);
    }
  }

  /** The credentials are those of the node at the other end. */
  lemma AuthFacts(cfg: map<byte, string>, s: Net, k: nat)
    requires Inv(cfg, s) && k in s.ends && s.ends[k].inbox != [] && s.ends[k].inbox[0].Auth?
    ensures var e := s.ends[k]; var z := e.inbox[0].node;
      && e.node in cfg && z in cfg && e.node != z && e.peer in s.ends && e.peer != k && s.ends[e.peer].node == z
      && s.ends[e.peer].peer == k && PacketsOK(e.inbox, z)
  {
    hide Inv, LinkState;
    LinkFacts(cfg, s, k);
    assert PacketOK(s.ends[k].inbox[0], s.ends[s.ends[k].peer].node);
  }

  lemma JoinKeeps(cfg: map<byte, string>, s: Net, t: Net, k: nat, z: byte, n: Node, out: seq<Sent>, ps: seq<Packet>)
    requires Inv(cfg, s) && k in s.ends && s.ends[k].status.Anonymous? && s.ends[k].inbox != []
    requires s.ends[k].inbox[0] == Auth(z) && s.ends[k].node in s.nodes && z !in s.nodes[s.ends[k].node].connectors
    requires var o := s.nodes[s.ends[k].node];
      n == o.(connectors := o.connectors[z := k]) && Syncs(ps, o.named, o.info.id) && ToOne(out, k, ps)
    requires t == Net(s.nodes[s.ends[k].node := n],
                      Posted(s.ends, out)[k := s.ends[k].(inbox := s.ends[k].inbox[1..], status := Authed(z))])
    ensures Inv(cfg, t)
  {
    hide Inv, ToOne, Syncs, LinkOK, ConnsOK, AbsentOK, NamesOK, Config;
    var x := s.ends[k].node;
    AuthFacts(cfg, s, k);
    KeysAreConfig(cfg, s);
    NodeFacts(cfg, s, x);
    forall j | j in t.ends
      ensures LinkOK(cfg, t, j)
    {
      JoinLink(cfg, s, t, k, z, out, ps, j);
    }
    ConnsJoined(s.ends, t.ends, k, x, s.nodes[x].connectors, z);
    forall y | y in cfg && y != x
      ensures ConnsOK(t.ends, y, s.nodes[y].connectors)
    {
      NodeFacts(cfg, s, y);
      ConnsElsewhere(s.ends, t.ends, k, y, s.nodes[y].connectors);
    }
    AbsentFewer(cfg, x, s.nodes[x].connectors, z, k, s.nodes[x].named);
    OneNodeChanged(cfg, s, t, x);
  }

  lemma ConnsJoined(ends: map<nat, Endpoint>, ends': map<nat, Endpoint>, k: nat, x: byte, connectors: map<byte, nat>,
                    z: byte)
    requires ConnsOK(ends, x, connectors) && z !in connectors && ends'.Keys == ends.Keys
    requires k in ends && ends[k].node == x && !ends[k].status.Authed?
    requires ends'[k].node == x && ends'[k].status == Authed(z)
    requires forall i | i in ends && i != k :: ends'[i].node == ends[i].node && ends'[i].status == ends[i].status
    ensures ConnsOK(ends', x, connectors[z := k])
  {
    assert forall i :: i in ends' <==> i in ends;
  }

  lemma AbsentFewer(cfg: map<byte, string>, x: byte, connectors: map<byte, nat>, z: byte, k: nat, named: Names)
    requires AbsentOK(cfg, x, connectors, named)
    ensures AbsentOK(cfg, x, connectors[z := k], named)
  {
  }

  lemma JoinLink(cfg: map<byte, string>, s: Net, t: Net, k: nat, z: byte, out: seq<Sent>, ps: seq<Packet>, j: nat)
    requires Inv(cfg, s) && k in s.ends && s.ends[k].status.Anonymous? && s.ends[k].inbox != [] && j in s.ends
    requires s.ends[k].inbox[0] == Auth(z) && s.ends[k].node in s.nodes && z !in s.nodes[s.ends[k].node].connectors
    requires var o := s.nodes[s.ends[k].node]; Syncs(ps, o.named, o.info.id) && ToOne(out, k, ps)
    requires t.nodes.Keys == s.nodes.Keys && forall y | y in s.nodes :: t.nodes[y].named == s.nodes[y].named
    requires t.ends == Posted(s.ends, out)[k := s.ends[k].(inbox := s.ends[k].inbox[1..], status := Authed(z))]
    ensures LinkOK(cfg, t, j)
  {
    hide Inv, LinkState, Syncs, PacketsOK, To, NothingOf, AbsentOK, NamesOK, ConnsOK, Config;
    AuthFacts(cfg, s, k);
    LinkFacts(cfg, s, j);
    KeysAreConfig(cfg, s);
    SentOnOne(cfg, s, k, j);
    var x := s.ends[k].node;
    NodeFacts(cfg, s, x);
    var r := s.ends[j];
    var e := s.ends[r.peer];
    assert r.inbox + [] == r.inbox;
    if j == k {
      NothingYet(cfg, x, s.nodes[x].connectors, s.nodes[x].named, z);
      LinkAuth(e.status, r.inbox, s.nodes[x].named, z, cfg[z], s.nodes[z].named, z);
      PacketsTail(r.inbox, z);
    } else if r.peer == k {
      SyncRebuilds(cfg, ps, s.nodes[x].named, x);
      LinkSync(r.status, r.inbox, s.nodes[r.node].named, x, cfg[x], s.nodes[x].named, ps, z);
      PacketsCat(r.inbox, ps, x);
    }
  }

  lemma NothingYet(cfg: map<byte, string>, x: byte, connectors: map<byte, nat>, named: Names, z: byte)
    requires AbsentOK(cfg, x, connectors, named) && z in cfg && z != x && z !in connectors
    ensures NothingOf(named, cfg[z])
  {
  }

  lemma PacketsCat(a: seq<Packet>, b: seq<Packet>, sender: byte)
    requires PacketsOK(a, sender) && PacketsOK(b, sender)
    ensures PacketsOK(a + b, sender)
  {
  }

  /** A packet is delivered. */
  lemma DeliverKeeps(cfg: map<byte, string>, s: Net, t: Net, k: nat)
    requires Inv(cfg, s) && DoesDeliver(s, t, k)
    ensures Inv(cfg, t)
  {
    hide Inv, DoesAuth, DoesReceive;
    KeysAreConfig(cfg, s);
    var e := s.ends[k];
    if e.status.Authed? {
      ReceiveKeeps(cfg, s, t, k, e.status.node);
    } else if e.inbox[0].Auth? {
      AuthFacts(cfg, s, k);
      AuthKeeps(cfg, s, t, k);
    } else {
      IgnoreKeeps(cfg, s, t, k);
    }
  }

  /** Anything but credentials is ignored before credentials; it can only come from an end that is closed by now. */
  lemma IgnoreKeeps(cfg: map<byte, string>, s: Net, t: Net, k: nat)
    requires Inv(cfg, s) && k in s.ends && s.ends[k].status.Anonymous? && s.ends[k].inbox != [] && !s.ends[k].inbox[0].Auth?
    requires t == s.(ends := s.ends[k := s.ends[k].(inbox := s.ends[k].inbox[1..])])
    ensures Inv(cfg, t)
  {
    hide Inv, LinkOK, ConnsOK, AbsentOK, NamesOK, Config;
    KeysAreConfig(cfg, s);
    forall j | j in t.ends
      ensures LinkOK(cfg, t, j)
    {
      IgnoreLink(cfg, s, t, k, j);
    }
    forall y | y in cfg
      ensures ConnsOK(t.ends, y, s.nodes[y].connectors)
    {
      NodeFacts(cfg, s, y);
      ConnsFrame(s.ends, t.ends, y, s.nodes[y].connectors);
    }
    NodesStay(cfg, s, t);
    InvFrom(cfg, t);
  }

  lemma IgnoreLink(cfg: map<byte, string>, s: Net, t: Net, k: nat, j: nat)
    requires Inv(cfg, s) && k in s.ends && s.ends[k].status.Anonymous? && s.ends[k].inbox != [] && !s.ends[k].inbox[0].Auth?
    requires j in s.ends && t == s.(ends := s.ends[k := s.ends[k].(inbox := s.ends[k].inbox[1..])])
    ensures LinkOK(cfg, t, j)
  {
    hide Inv, Mirrors, Rebuilds, NothingOf, PacketsOK;
    LinkFacts(cfg, s, j);
    if j == k {
      PacketsTail(s.ends[k].inbox, s.ends[s.ends[k].peer].node);
    }
  }

  // ---------------------------------------------------------------- runs

  lemma StepKeeps(cfg: map<byte, string>, s: Net, t: Net, e: Event)
    requires Inv(cfg, s) && Step(s, t, e)
    ensures Inv(cfg, t)
  {
    hide Inv, DoesConnect, DoesOpen, DoesDeliver, DoesClose, DoesCreate, DoesDrop;
    match e
    case Connect(k, l, x, y) => ConnectKeeps(cfg, s, t, k, l, x, y);
    case Open(k) => OpenKeeps(cfg, s, t, k);
    case Deliver(k) => DeliverKeeps(cfg, s, t, k);
    case Close(k) => CloseKeeps(cfg, s, t, k);
    case CreateName(x, name) => CreateKeeps(cfg, s, t, x, name);
    case DropName(x, name) => DropKeeps(cfg, s, t, x, name);
  }

  /** Nodes with distinct names, without connections and names. */
  ghost predicate Start(cfg: map<byte, string>, net: Net) {
    && Config(cfg) && net.ends == map[] && net.nodes.Keys == cfg.Keys
    && forall x | x in cfg :: net.nodes[x] == Node(Peer(x, cfg[x]), map[], map[], false)
  }

  ghost predicate Run(cfg: map<byte, string>, states: seq<Net>, events: seq<Event>) {
    && |states| == |events| + 1 && Start(cfg, states[0])
    && forall i | 0 <= i < |events| :: Step(states[i], states[i + 1], events[i])
  }

  lemma {:induction false} RunKeeps(cfg: map<byte, string>, states: seq<Net>, events: seq<Event>, i: nat)
    requires Run(cfg, states, events) && i < |states|
    ensures Inv(cfg, states[i])
    decreases i
  {
    hide Step;
    if i > 0 {
      RunKeeps(cfg, states, events, i - 1);
      assert Step(states[i - 1], states[i], events[i - 1]);
      StepKeeps(cfg, states[i - 1], states[i], events[i - 1]);
    }
  }

  /** In every state of every run: a node knows names only of nodes that it is connected with; where both ends of a
      connection know each other, the entries at one end, after the packets in flight, are the names at the other. */
  lemma RegistriesAgree(cfg: map<byte, string>, states: seq<Net>, events: seq<Event>, i: nat, x: byte, y: byte)
    requires Run(cfg, states, events) && i < |states| && x in cfg && y in cfg && x != y
    ensures var net := states[i];
      && x in net.nodes && y in net.nodes
      && (y !in net.nodes[x].connectors ==> NothingOf(net.nodes[x].named, cfg[y]))
      && (y in net.nodes[x].connectors ==>
            var k := net.nodes[x].connectors[y];
            && k in net.ends && net.ends[k].peer in net.ends
            && (net.ends[net.ends[k].peer].status.Authed? ==>
                  Mirrors(net.ends[k].inbox, net.nodes[x].named, cfg[y], net.nodes[y].named)))
  {
    hide Inv, Run, Mirrors, NothingOf, PacketsOK;
    RunKeeps(cfg, states, events, i);
    var net := states[i];
    NodeFacts(cfg, net, x);
    NodeFacts(cfg, net, y);
    if y in net.nodes[x].connectors {
      LinkFacts(cfg, net, net.nodes[x].connectors[y]);
    }
  }

  /** With nothing in flight the two registries say the same about every name. */
  lemma QuietRegistriesAgree(cfg: map<byte, string>, states: seq<Net>, events: seq<Event>, i: nat, x: byte, y: byte,
                             n: string)
    requires Run(cfg, states, events) && i < |states| && x in cfg && y in cfg && x != y && '@' !in n
    ensures var net := states[i];
      && x in net.nodes && y in net.nodes
      && (y in net.nodes[x].connectors ==>
            var k := net.nodes[x].connectors[y];
            && k in net.ends && net.ends[k].peer in net.ends
            && (net.ends[net.ends[k].peer].status.Authed? && net.ends[k].inbox == [] ==>
                  Get(net.nodes[x].named, Qualified(n, cfg[y])) == Get(net.nodes[y].named, n)))
  {
    hide Inv, Run;
    RegistriesAgree(cfg, states, events, i, x, y);
  }
}
