/** The name registry of one cluster node: its connections, its named mailboxes and the lookups that wait for a name. */
module Registry {
  import opened Bytes
  import opened Message
  import opened Matcher

  type Names = map<string, MailboxID>

  /** Messages between node monitors. */
  datatype Packet = Auth(node: byte) | Register(name: string, id: MailboxID) | Unregister(name: string)

  datatype Sent = Sent(conn: nat, packet: Packet)

  datatype Peer = Peer(id: byte, name: string)

  /** A lookup that waits for a name; a caller with a linker may give it up. */
  datatype Fetch = Fetch(matcher: string, who: nat, linked: bool)

  /** A name of another node's mailbox. */
  function Qualified(name: string, node: string): string {
    name + "@" + node
  }

  /** What was sent on one connection. */
  function To(out: seq<Sent>, conn: nat): seq<Packet> {
    if out == [] then [] else (if out[0].conn == conn then [out[0].packet] else []) + To(out[1..], conn)
  }

  lemma {:induction false} ToCat(a: seq<Sent>, b: seq<Sent>, conn: nat)
    ensures To(a + b, conn) == To(a, conn) + To(b, conn)
    decreases |a|
  {
    if a == [] {
      assert a + b == b;
    } else {
      assert (a + b)[0] == a[0] && (a + b)[1..] == a[1..] + b;
      ToCat(a[1..], b, conn);
      Regroup(if a[0].conn == conn then [a[0].packet] else [], To(a[1..], conn), To(b, conn));
    }
  }

  lemma Regroup(a: seq<Packet>, b: seq<Packet>, c: seq<Packet>)
    ensures a + (b + c) == a + b + c
  {
  }

  lemma ToSnoc(a: seq<Sent>, s: Sent, conn: nat)
    ensures To(a + [s], conn) == To(a, conn) + if s.conn == conn then [s.packet] else []
  {
    ToCat(a, [s], conn);
    assert [s][1..] == [];
  }

  /** The same packet to each of the connections `cs`, once. */
  ghost predicate ToEach(out: seq<Sent>, cs: set<nat>, p: Packet) {
    forall c: nat :: To(out, c) == if c in cs then [p] else []
  }

  /** Only one connection is written to. */
  ghost predicate ToOne(out: seq<Sent>, conn: nat, ps: seq<Packet>) {
    forall c: nat :: To(out, c) == if c == conn then ps else []
  }

  ghost predicate Silent(out: seq<Sent>) {
    forall c: nat :: To(out, c) == []
  }

  /** A name that is known already keeps its mailbox. */
  function Up(named: Names, name: string, id: MailboxID): Names {
    if name in named then named else named[name := id]
  }

  function Purged(named: Names, node: byte): Names {
    map k | k in named && named[k].nodeid != node :: named[k]
  }

  /** A full copy of the local names, in any order, each one once. */
  ghost predicate Syncs(ps: seq<Packet>, named: Names, node: byte) {
    && (forall i | 0 <= i < |ps| ::
          && ps[i].Register? && ps[i].name in named
          && named[ps[i].name] == ps[i].id && ps[i].id.nodeid == node)
    && (forall i, j | 0 <= i < j < |ps| :: ps[i].name != ps[j].name)
    && (forall n | n in named && named[n].nodeid == node :: exists i :: 0 <= i < |ps| && ps[i].name == n)
  }

  // ---------------------------------------------------------------- waiting lookups

  predicate GivenUp(f: Fetch, abandoned: set<nat>) {
    f.linked && f.who in abandoned
  }

  /** Who goes on waiting when `name` comes up. */
  function Waiting(fs: seq<Fetch>, name: string, abandoned: set<nat>): (r: seq<Fetch>)
    ensures forall f <- r :: f in fs && !Matches(f.matcher, name)
  {
    if fs == [] then []
    else
      (if GivenUp(fs[0], abandoned) || Matches(fs[0].matcher, name) then [] else [fs[0]])
      + Waiting(fs[1..], name, abandoned)
  }

  /** Who is called back when `name` comes up. */
  function Called(fs: seq<Fetch>, name: string, abandoned: set<nat>): seq<Fetch> {
    if fs == [] then []
    else
      (if !GivenUp(fs[0], abandoned) && Matches(fs[0].matcher, name) then [fs[0]] else [])
      + Called(fs[1..], name, abandoned)
  }

  /** A lookup whose linker has been dropped is forgotten. Any other one is called back if it matches, and waits on if it
      does not. */
  lemma {:induction false} AnsweredOrWaiting(fs: seq<Fetch>, name: string, abandoned: set<nat>)
    ensures var waiting, called := Waiting(fs, name, abandoned), Called(fs, name, abandoned);
      forall f <- fs ::
        if f.linked && f.who in abandoned then f !in called && f !in waiting
        else if Matches(f.matcher, name) then f in called && f !in waiting
        else f in waiting && f !in called
    ensures forall f <- Called(fs, name, abandoned) :: f in fs
    decreases |fs|
  {
    hide Matches;
    if fs != [] {
      AnsweredOrWaiting(fs[1..], name, abandoned);
      OthersKeepThem(fs, name, abandoned);
    }
  }

  lemma OthersKeepThem(fs: seq<Fetch>, name: string, abandoned: set<nat>)
    requires fs != []
    ensures forall f <- fs :: f == fs[0] || f in fs[1..]
    ensures forall f :: f in Called(fs, name, abandoned) <==>
      f in Called(fs[1..], name, abandoned) || (f == fs[0] && !GivenUp(f, abandoned) && Matches(f.matcher, name))
    ensures forall f :: f in Waiting(fs, name, abandoned) <==>
      f in Waiting(fs[1..], name, abandoned) || (f == fs[0] && !GivenUp(f, abandoned) && !Matches(f.matcher, name))
    ensures forall f <- Called(fs[1..], name, abandoned) :: Matches(f.matcher, name) && !GivenUp(f, abandoned)
    ensures forall f <- Waiting(fs[1..], name, abandoned) :: !GivenUp(f, abandoned)
  {
    hide Matches;
    assert fs == [fs[0]] + fs[1..];
    WaitersAccountedFor(fs[1..], name, abandoned);
  }

  /** The order of the list is the order of the calls, and of those who wait on. */
  lemma {:induction false} InListOrder(a: seq<Fetch>, b: seq<Fetch>, name: string, abandoned: set<nat>)
    ensures Called(a + b, name, abandoned) == Called(a, name, abandoned) + Called(b, name, abandoned)
    ensures Waiting(a + b, name, abandoned) == Waiting(a, name, abandoned) + Waiting(b, name, abandoned)
    decreases |a|
  {
    hide Matches, GivenUp;
    if a == [] {
      assert a + b == b;
    } else {
      assert (a + b)[0] == a[0] && (a + b)[1..] == a[1..] + b;
      InListOrder(a[1..], b, name, abandoned);
      var f := a[0];
      Together(if !GivenUp(f, abandoned) && Matches(f.matcher, name) then [f] else [], Called(a[1..], name, abandoned),
               Called(b, name, abandoned));
      Together(if GivenUp(f, abandoned) || Matches(f.matcher, name) then [] else [f], Waiting(a[1..], name, abandoned),
               Waiting(b, name, abandoned));
    }
  }

  lemma Together(a: seq<Fetch>, b: seq<Fetch>, c: seq<Fetch>)
    ensures a + (b + c) == a + b + c
  {
  }

  /** Every waiter either goes on waiting, is called back, or has given up: nobody is lost, nobody is called twice. */
  lemma {:induction false} WaitersAccountedFor(fs: seq<Fetch>, name: string, abandoned: set<nat>)
    ensures var waiting, called := Waiting(fs, name, abandoned), Called(fs, name, abandoned);
      && multiset(waiting) + multiset(called) <= multiset(fs)
      && (forall f <- fs :: f in waiting || f in called || GivenUp(f, abandoned))
      && (forall f <- called :: Matches(f.matcher, name) && !GivenUp(f, abandoned))
      && (forall f <- fs :: !Matches(f.matcher, name) && !GivenUp(f, abandoned) ==> f in waiting)
      && (forall f <- waiting :: !GivenUp(f, abandoned))
    decreases |fs|
  {
    if fs != [] {
      WaitersAccountedFor(fs[1..], name, abandoned);
      assert fs == [fs[0]] + fs[1..];
    }
  }

  /** The whole list at once: no waiter matches a known name. */
  ghost predicate NoneMatches(fs: seq<Fetch>, named: Names) {
    forall f <- fs, n <- named :: !Matches(f.matcher, n)
  }

  // ---------------------------------------------------------------- the steps of a node

  datatype Node = Node(info: Peer, connectors: map<byte, nat>, named: Names, stopped: bool) {
    ghost predicate DidRegister(next: Node, name: string, id: MailboxID, out: seq<Sent>) {
      && name !in named && id.nodeid == info.id
      && next == this.(named := named[name := id])
      && ToEach(out, connectors.Values, Register(name, id))
    }

    ghost predicate DidUnregister(next: Node, name: string, out: seq<Sent>) {
      next == this.(named := named - {name}) && ToEach(out, connectors.Values, Unregister(name))
    }

    /** A connection has proved whose it is: it gets all local names; a second one of the same node stops the program. */
    ghost predicate DidAuth(next: Node, conn: nat, node: byte, out: seq<Sent>) {
      if node in connectors then next == this.(stopped := true) && Silent(out)
      else
        && next == this.(connectors := connectors[node := conn])
        && exists ps :: Syncs(ps, named, info.id) && ToOne(out, conn, ps)
    }

    ghost predicate DidReceive(next: Node, peer: Peer, p: Packet) {
      match p
      case Register(name, id) => next == this.(named := Up(named, Qualified(name, peer.name), id))
      case Unregister(name) => next == this.(named := named - {Qualified(name, peer.name)})
      case Auth(_) => next == this
    }

    ghost predicate DidClose(next: Node, node: byte) {
      next == this.(connectors := connectors - {node}, named := Purged(named, node))
    }
  }

  lemma UpKeepsWaiters(fs: seq<Fetch>, named: Names, name: string, id: MailboxID, abandoned: set<nat>)
    requires NoneMatches(fs, named)
    ensures NoneMatches(Waiting(fs, name, abandoned), Up(named, name, id))
  {
    hide Matches;
    WaitersAccountedFor(fs, name, abandoned);
  }

  class Mailbox {
    const name: string
    var mbid: MailboxID

    constructor (name: string)
      ensures this.name == name && mbid == MailboxID(0, 0)
    {
      this.name := name;
      mbid := MailboxID(0, 0);
    }
  }

  class NodeMonitor {
    const info: Peer
    var connectors: map<byte, nat>
    var anonymous: seq<nat>
    var mailboxes: map<int, Mailbox>
    var named: Names
    var asyncFetch: seq<Fetch>
    var sysCur: nat
    var normalCur: nat
    var stopped: bool

    /** No waiting lookup matches a registered name; a connection belongs to one node. */
    ghost predicate Valid()
      reads this
    {
      && NoneMatches(asyncFetch, named) && (forall f <- asyncFetch :: f.matcher != "")
      && (forall i, j | i in connectors && j in connectors && i != j :: connectors[i] != connectors[j])
      && 1 <= sysCur <= 10000 && 1000 <= normalCur <= MAX_NORMAL_ID
    }

    constructor (info: Peer)
      ensures Valid() && this.info == info && connectors == map[] && named == map[] && !stopped && asyncFetch == []
    {
      this.info := info;
      connectors, anonymous, mailboxes, named, asyncFetch := map[], [], map[], map[], [];
      sysCur, normalCur, stopped := 1, 10000, false;
    }

    /** ProcessIDGen: every generated number fits into the 24 bits that a mailbox id has for it. */
    method Gen(sys: bool) returns (pid: nat)
      requires Valid() && (sys ==> sysCur < 10000)
      modifies this`sysCur, this`normalCur
      ensures Valid() && 0 < pid < 0x100_0000
      ensures if sys then pid == old(sysCur) && sysCur == pid + 1 else pid >= 1000 && sysCur == old(sysCur)
    {
      if sys {
        pid := sysCur;
        sysCur := sysCur + 1;
      } else {
        normalCur := normalCur + 1;
        if normalCur >= MAX_NORMAL_ID {
          normalCur := 1000;
        }
        pid := normalCur;
        normalCur := normalCur + 1;
      }
    }

    /** CheckAsyncFetchList: calls the waiters back that match and drops those that have given up. */
    method CheckAsyncFetchList(name: string, abandoned: set<nat>) returns (called: seq<Fetch>)
      requires forall f <- asyncFetch :: f.matcher != ""
      modifies this`asyncFetch
      ensures asyncFetch == Waiting(old(asyncFetch), name, abandoned)
      ensures called == Called(old(asyncFetch), name, abandoned)
      ensures forall f <- old(asyncFetch) ::
        if f.linked && f.who in abandoned then f !in called && f !in asyncFetch
        else if Matches(f.matcher, name) then f in called && f !in asyncFetch
        else f in asyncFetch && f !in called
      ensures (forall f <- called :: f in old(asyncFetch)) && forall f <- asyncFetch :: f in old(asyncFetch)
    {
      hide Waiting, Called, Matches, Visited;
      AnsweredOrWaiting(asyncFetch, name, abandoned);
      ghost var all, done := asyncFetch, 0;
      called := [];
      var it := 0;
      NothingVisited(all, name, abandoned);
      while it < |asyncFetch|
        invariant it <= |asyncFetch| && done <= |all| && asyncFetch[it..] == all[done..]
        invariant Visited(all, done, asyncFetch[..it], called, name, abandoned)
        invariant forall f <- all :: f.matcher != ""
        decreases |asyncFetch| - it
      {
        var f := asyncFetch[it];
        OneVisited(all, done, asyncFetch, it, called, name, abandoned);
        EraseAt(asyncFetch, it);
        if f.linked && f.who in abandoned {
          asyncFetch := asyncFetch[..it] + asyncFetch[it + 1..];
        } else {
          var matches := IsProcessNameMatch(f.matcher, name);
          if matches {
            called := called + [f];
            asyncFetch := asyncFetch[..it] + asyncFetch[it + 1..];
          } else {
            it := it + 1;
          }
        }
        done := done + 1;
      }
      assert all[done..] == [];
      AllVisited(all, done, asyncFetch[..it], called, name, abandoned);
      assert asyncFetch[..it] == asyncFetch;
    }

    ghost function State(): Node
      reads this
    {
      Node(info, connectors, named, stopped)
    }

    /** OnNamedMailboxUp: the name is inserted, and whoever waited for it is called back. */
    method OnNamedMailboxUp(name: string, id: MailboxID, abandoned: set<nat>) returns (called: seq<Fetch>)
      requires Valid()
      modifies this`named, this`asyncFetch
      ensures Valid() && named == Up(old(named), name, id)
      ensures asyncFetch == Waiting(old(asyncFetch), name, abandoned)
      ensures called == Called(old(asyncFetch), name, abandoned)
    {
      hide Waiting, Called, Matches;
      UpKeepsWaiters(asyncFetch, named, name, id, abandoned);
      if name !in named {
        named := named[name := id];
      }
      called := CheckAsyncFetchList(name, abandoned);
    }

    /** Sends a packet to every authenticated connection, in any order. */
    method Broadcast(p: Packet) returns (out: seq<Sent>)
      requires Valid()
      ensures ToEach(out, connectors.Values, p)
    {
      out := [];
      var left := connectors.Keys;
      ghost var reached: set<nat> := {};
      while left != {}
        invariant left <= connectors.Keys && ToEach(out, reached, p)
        invariant forall n | n in connectors :: n in left <==> connectors[n] !in reached
        invariant reached <= connectors.Values
        decreases |left|
      {
        var n :| n in left;
        left := left - {n};
        ToEachMore(out, reached, connectors[n], p);
        out := out + [Sent(connectors[n], p)];
        reached := reached + {connectors[n]};
      }
      assert reached == connectors.Values;
    }

    /** Register: a new mailbox gets its id; a name must not be taken. */
    method RegisterMailbox(mb: Mailbox, sys: bool, abandoned: set<nat>)
      returns (ok: bool, called: seq<Fetch>, out: seq<Sent>)
      requires Valid() && (sys ==> sysCur < 10000)
      modifies this`named, this`asyncFetch, this`mailboxes, this`sysCur, this`normalCur, mb
      ensures Valid() && (ok <==> mb.name == "" || mb.name !in old(named))
      ensures ok && mb.name != "" ==>
                old(State()).DidRegister(State(), mb.name, mb.mbid, out) && called == Called(old(asyncFetch), mb.name, abandoned)
                && asyncFetch == Waiting(old(asyncFetch), mb.name, abandoned)
      ensures ok ==> mailboxes == if mb.mbid.pid in old(mailboxes) then old(mailboxes) else old(mailboxes)[mb.mbid.pid := mb]
      ensures !ok || mb.name == "" ==> Silent(out) && State() == old(State()) && asyncFetch == old(asyncFetch) && called == []
      ensures if ok then mb.mbid == MailboxID(info.id, mb.mbid.pid) && 0 < mb.mbid.pid < 0x100_0000 else mb.mbid == old(mb.mbid)
    {
      called, out := [], [];
      if mb.name != "" && mb.name in named {
        return false, [], [];
      }
      var pid := Gen(sys);
      mb.mbid := MailboxID(info.id, pid);
      if pid !in mailboxes {
        mailboxes := mailboxes[pid := mb];
      }
      if mb.name != "" {
        called := OnNamedMailboxUp(mb.name, mb.mbid, abandoned);
        out := Broadcast(Register(mb.name, mb.mbid));
      }
      ok := true;
    }

    /** UnRegister: the mailbox and its name are forgotten, whoever owns the name. */
    method UnRegisterMailbox(mb: Mailbox) returns (out: seq<Sent>)
      requires Valid()
      modifies this`named, this`mailboxes, mb
      ensures Valid() && mb.mbid == MailboxID(0, 0) && mailboxes == old(mailboxes) - {old(mb.mbid.pid)}
      ensures if mb.name != "" then old(State()).DidUnregister(State(), mb.name, out)
              else State() == old(State()) && Silent(out)
    {
      out := [];
      if mb.name != "" {
        named := named - {mb.name};
        out := Broadcast(Unregister(mb.name));
      }
      mailboxes := mailboxes - {mb.mbid.pid};
      mb.mbid := MailboxID(0, 0);
    }

    /** Create: a name that is taken already is taken away from its owner, on this node and on every other one. */
    method Create(name: string, sys: bool, abandoned: set<nat>)
      returns (mb: Mailbox?, called: seq<Fetch>, out: seq<Sent>)
      requires Valid() && (sys ==> sysCur < 10000)
      modifies this`named, this`asyncFetch, this`mailboxes, this`sysCur, this`normalCur
      ensures Valid()
      ensures mb == null <==> name != "" && name in old(named)
      ensures mb == null ==> old(State()).DidUnregister(State(), name, out) && called == []
      ensures mb != null && name != "" ==> fresh(mb) && old(State()).DidRegister(State(), name, mb.mbid, out)
      ensures name != "" ==> (name in named <==> name !in old(named))
    {
      var m := new Mailbox(name);
      var ok;
      ok, called, out := RegisterMailbox(m, sys, abandoned);
      if ok {
        mb := m;
      } else {
        out := UnRegisterMailbox(m);
        mb := null;
      }
    }

    /** OnConnectorAuthSuccess and OnNodeUp: the connection becomes the node's and gets all local names. */
    method OnConnectorAuthSuccess(conn: nat, node: byte) returns (out: seq<Sent>)
      requires Valid() && conn !in connectors.Values
      modifies this`connectors, this`anonymous, this`stopped
      ensures Valid() && old(State()).DidAuth(State(), conn, node, out)
      ensures if node in old(connectors) then stopped && connectors == old(connectors)
              else connectors == old(connectors)[node := conn] && stopped == old(stopped)
    {
      out := [];
      if node in connectors {
        stopped := true;
        return;
      }
      connectors := connectors[node := conn];
      anonymous := Without(anonymous, conn);
      ghost var ps;
      out, ps := OnNodeUp(conn);
    }

    method OnNodeUp(conn: nat) returns (out: seq<Sent>, ghost ps: seq<Packet>)
      ensures Syncs(ps, named, info.id) && ToOne(out, conn, ps)
    {
      out, ps := [], [];
      var left := named.Keys;
      while left != {}
        invariant left <= named.Keys && ToOne(out, conn, ps)
        invariant forall i | 0 <= i < |ps| ::
            && ps[i].Register? && ps[i].name in named && ps[i].name !in left
            && named[ps[i].name] == ps[i].id && ps[i].id.nodeid == info.id
        invariant forall i, j | 0 <= i < j < |ps| :: ps[i].name != ps[j].name
        invariant forall n | n in named && n !in left && named[n].nodeid == info.id ::
            exists i :: 0 <= i < |ps| && ps[i].name == n
        decreases |left|
      {
        var n :| n in left;
        left := left - {n};
        if named[n].nodeid == info.id {
          var p := Register(n, named[n]);
          ToOneMore(out, conn, ps, p);
          ghost var had := ps;
          out, ps := out + [Sent(conn, p)], ps + [p];
          assert ps[|had|].name == n && forall i | 0 <= i < |had| :: ps[i] == had[i];
        }
      }
    }

    /** OnConnectorReceiveMessage from an authenticated connection. */
    method OnConnectorReceiveMessage(peer: Peer, p: Packet, abandoned: set<nat>) returns (called: seq<Fetch>)
      requires Valid()
      modifies this`named, this`asyncFetch
      ensures Valid() && old(State()).DidReceive(State(), peer, p)
      ensures p.Register? ==>
                var name := Qualified(p.name, peer.name);
                asyncFetch == Waiting(old(asyncFetch), name, abandoned) && called == Called(old(asyncFetch), name, abandoned)
      ensures !p.Register? ==> asyncFetch == old(asyncFetch) && called == []
      ensures p.Register? ==>
                var key := p.name + "@" + peer.name;
                key in named && named[key] == (if key in old(named) then old(named)[key] else p.id)
                && named - {key} == old(named) - {key}
      ensures p.Unregister? ==> named == old(named) - {p.name + "@" + peer.name}
    {
      called := [];
      match p {
        case Register(name, id) => called := OnNamedMailboxUp(Qualified(name, peer.name), id, abandoned);
        case Unregister(name) => named := named - {Qualified(name, peer.name)};
        case Auth(_) =>
      }
    }

    /** OnConnectorClose of an authenticated connection, and OnNodeDown: the node's names are removed. */
    method OnConnectorClose(node: byte)
      requires Valid()
      modifies this`connectors, this`named
      ensures Valid() && old(State()).DidClose(State(), node)
      ensures node !in connectors && forall n | n in named :: n in old(named) && named[n] == old(named)[n]
      ensures forall n :: n in named <==> n in old(named) && old(named)[n].nodeid != node
    {
      connectors := connectors - {node};
      var left := named.Keys;
      ghost var all := named;
      while left != {}
        invariant left <= named.Keys <= all.Keys && connectors == old(connectors) - {node}
        invariant forall n | n in named :: named[n] == all[n] && (n !in left ==> all[n].nodeid != node)
        invariant forall n | n in all && n !in named :: all[n].nodeid == node
        decreases |left|
      {
        var n :| n in left;
        left := left - {n};
        if named[n].nodeid == node {
          named := named - {n};
        }
      }
      assert named == Purged(all, node);
    }

    /** FetchNamedMailbox: calls back at once for a name that matches, or waits. */
    method FetchNamedMailbox(matcher: string, who: nat, linked: bool) returns (found: bool, id: MailboxID)
      requires Valid() && matcher != ""
      modifies this`asyncFetch
      ensures Valid()
      ensures found <==> exists n <- named :: Matches(matcher, n)
      ensures found ==> asyncFetch == old(asyncFetch) && exists n <- named :: Matches(matcher, n) && id == named[n]
      ensures !found ==> asyncFetch == old(asyncFetch) + [Fetch(matcher, who, linked)]
    {
      hide Matches;
      id := MailboxID(0, 0);
      var left := named.Keys;
      while left != {}
        invariant left <= named.Keys && asyncFetch == old(asyncFetch)
        invariant forall n | n in named && n !in left :: !Matches(matcher, n)
        decreases |left|
      {
        var n :| n in left;
        left := left - {n};
        var ok := IsProcessNameMatch(matcher, n);
        if ok {
          return true, named[n];
        }
      }
      asyncFetch := asyncFetch + [Fetch(matcher, who, linked)];
      found := false;
    }
  }

  function Without(s: seq<nat>, c: nat): seq<nat> {
    if s == [] then [] else (if s[0] == c then [] else [s[0]]) + Without(s[1..], c)
  }

  lemma ToEachMore(out: seq<Sent>, cs: set<nat>, c: nat, p: Packet)
    requires ToEach(out, cs, p) && c !in cs
    ensures ToEach(out + [Sent(c, p)], cs + {c}, p)
  {
    forall d: nat
      ensures To(out + [Sent(c, p)], d) == if d in cs + {c} then [p] else []
    {
      ToSnoc(out, Sent(c, p), d);
    }
  }

  lemma ToOneMore(out: seq<Sent>, conn: nat, ps: seq<Packet>, p: Packet)
    requires ToOne(out, conn, ps)
    ensures ToOne(out + [Sent(conn, p)], conn, ps + [p])
  {
    forall c: nat
      ensures To(out + [Sent(conn, p)], c) == if c == conn then ps + [p] else []
    {
      ToSnoc(out, Sent(conn, p), c);
    }
  }

  lemma EraseAt(fs: seq<Fetch>, i: nat)
    requires i < |fs|
    ensures var r := fs[..i] + fs[i + 1..]; r[..i] == fs[..i] && r[i..] == fs[i + 1..]
    ensures fs[..i + 1] == fs[..i] + [fs[i]] && fs[i..][1..] == fs[i + 1..]
  {
  }

  /** The first `done` lookups have been visited: `kept` wait on, `called` have been called. */
  ghost predicate Visited(all: seq<Fetch>, done: nat, kept: seq<Fetch>, called: seq<Fetch>, name: string,
                          abandoned: set<nat>)
  {
    && done <= |all|
    && Waiting(all, name, abandoned) == kept + Waiting(all[done..], name, abandoned)
    && Called(all, name, abandoned) == called + Called(all[done..], name, abandoned)
  }

  lemma NothingVisited(all: seq<Fetch>, name: string, abandoned: set<nat>)
    ensures all[0..] == all && Visited(all, 0, all[..0], [], name, abandoned)
  {
    hide Matches;
    assert all[0..] == all;
  }

  lemma AllVisited(all: seq<Fetch>, done: nat, kept: seq<Fetch>, called: seq<Fetch>, name: string, abandoned: set<nat>)
    requires Visited(all, done, kept, called, name, abandoned) && all[done..] == []
    ensures Waiting(all, name, abandoned) == kept && Called(all, name, abandoned) == called
  {
    OneWaiter(all, done, name, abandoned);
  }

  lemma OneVisited(all: seq<Fetch>, done: nat, now: seq<Fetch>, it: nat, called: seq<Fetch>, name: string,
                   abandoned: set<nat>)
    requires it < |now| && done <= |all| && now[it..] == all[done..]
    requires Visited(all, done, now[..it], called, name, abandoned)
    ensures done < |all| && now[it] == all[done] && now[it + 1..] == all[done + 1..]
    ensures var f := now[it];
      if GivenUp(f, abandoned) then Visited(all, done + 1, now[..it], called, name, abandoned)
      else if Matches(f.matcher, name) then Visited(all, done + 1, now[..it], called + [f], name, abandoned)
      else Visited(all, done + 1, now[..it] + [f], called, name, abandoned)
  {
    hide Waiting, Called, Matches, GivenUp;
    assert now[it..][0] == all[done..][0] && now[it..][1..] == all[done..][1..];
    OneWaiter(all, done, name, abandoned);
    Joined(now[..it], now[it], Waiting(all[done + 1..], name, abandoned));
    Joined(called, now[it], Called(all[done + 1..], name, abandoned));
  }

  lemma Joined(a: seq<Fetch>, f: Fetch, b: seq<Fetch>)
    ensures a + ([f] + b) == a + [f] + b && a + ([] + b) == a + b
  {
  }

  lemma OneWaiter(fs: seq<Fetch>, i: nat, name: string, abandoned: set<nat>)
    requires i <= |fs|
    ensures i == |fs| ==> Waiting(fs[i..], name, abandoned) == [] == Called(fs[i..], name, abandoned)
    ensures i < |fs| ==>
      var f := fs[i];
      && fs[i..][1..] == fs[i + 1..]
      && Waiting(fs[i..], name, abandoned)
         == (if GivenUp(f, abandoned) || Matches(f.matcher, name) then [] else [f]) + Waiting(fs[i + 1..], name, abandoned)
      && Called(fs[i..], name, abandoned)
         == (if !GivenUp(f, abandoned) && Matches(f.matcher, name) then [f] else []) + Called(fs[i + 1..], name, abandoned)
  {
    if i < |fs| {
      assert fs[i..][0] == fs[i] && fs[i..][1..] == fs[i + 1..];
    }
  }

  const MAX_NORMAL_ID: nat := 0x100_0000
}
