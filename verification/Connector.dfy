/** A cluster connection: messages go out through a packet and the send queue, and are cut from the receive queue. */
module Connector {
  import opened Bytes
  import opened Memory
  import opened Windows
  import opened Cursor
  import opened PacketReader
  import opened PacketWriter
  import opened Client
  import opened Message
  import PacketValues

  // ---------------------------------------------------------------- receiving

  /** ReadHead and the body after it: the message in a received packet. */
  method ReadMessage(msgin: PacketIn) returns (m: Message)
    requires msgin.Valid() && msgin.size >= HEAD_SIZE
    modifies msgin
    ensures msgin.Valid() && |msgin.Contents()| >= HEAD_SIZE
    ensures msgin.Contents() == old(msgin.Contents()) && m == Unwire(msgin.Contents())
  {
    hide PacketIn.Valid, PacketIn.Contents, FromLittleEndian, ParseID, Spans;
    PacketValues.PacketInShape(msgin);
    HeadFits(msgin);
    ghost var all := msgin.Contents();
    msgin.SkipTo(4);
    var code := msgin.ReadInteger(2);
    var from := msgin.ReadInteger(4);
    WordsFit(all);
    var to := msgin.ReadInteger(4);
    var session := msgin.ReadInteger(2);
    var body := msgin.GetByte(msgin.size - HEAD_SIZE);
    assert all[HEAD_SIZE..|all|] == all[HEAD_SIZE..];
    m := Message(code.value, ParseID(from.value), ParseID(to.value), session.value, body.value);
  }

  lemma HeadFits(msgin: PacketIn)
    requires msgin.Valid()
    ensures msgin.capacity == msgin.size
  {
  }

  lemma WordsFit(all: seq<byte>)
    requires |all| >= HEAD_SIZE
    ensures FromLittleEndian(all[6..10]) < UINT32 && FromLittleEndian(all[10..14]) < UINT32
  {
    hide FromLittleEndian;
    FromLittleEndianBound(all[6..10]);
    FromLittleEndianBound(all[10..14]);
    Power256Four();
  }

  method ReadPopped(data: seq<Window>) returns (m: Message)
    requires AllInside(data) && Total(data) >= HEAD_SIZE
    ensures |Flat(data)| >= HEAD_SIZE && m == Unwire(Flat(data))
  {
    hide Flat, Spans, Unwire, PacketIn.Valid, PacketIn.Contents;
    var msgin := new PacketIn(data);
    PacketValues.PacketInShape(msgin);
    m := ReadMessage(msgin);
  }

  /** Pops one packet and reads it. */
  method ReceiveOne(c: Client, pktlen: nat) returns (m: Message)
    requires c.Valid() && HEAD_SIZE <= pktlen <= |c.Received()|
    modifies c`recvq, c`recvqCount, c.pool, c.pool.owned
    ensures c.Valid() && c.Others() == old(c.Others()) && c.pool.owned <= old(c.pool.owned)
    ensures m == Unwire(old(c.Received())[..pktlen]) && c.Received() == old(c.Received())[pktlen..]
    ensures c.Sending() == old(c.Sending())
  {
    hide MemoryPool.Consistent, Writable, Rewound, HeldIn, Within, Beside, Flat, Spans, Unwire, PacketIn.Valid, PacketIn.Contents;
    ReceivedCount(c);
    ghost var others := c.Others();
    var data, total := c.PopReceive(pktlen);
    m := ReadPopped(data);
    GivesBack(others, data);
    c.Discard(data);
  }

  lemma ReceivedCount(c: Client)
    requires c.Valid()
    ensures c.recvqCount == |c.Received()|
  {
  }

  lemma GivesBack(others: multiset<Extent>, ws: seq<Window>)
    ensures var more := others + multiset(Spans(ws));
      Within(multiset(Spans(ws)), more) && Beside(more, multiset(Spans(ws))) == others
  {
  }

  /** OnReceive: cuts every complete packet from the receive queue. */
  method OnReceive(c: Client) returns (msgs: seq<Message>)
    requires c.Valid()
    modifies c`recvq, c`recvqCount, c.pool, c.pool.owned
    ensures c.Valid() && c.Others() == old(c.Others()) && c.pool.owned <= old(c.pool.owned)
    ensures msgs == Delivered(Frames(old(c.Received()))) && c.Received() == Rest(old(c.Received()))
    ensures FirstOf(old(c.Received()), msgs, c.Received())
    ensures c.Sending() == old(c.Sending())
  {
    hide MemoryPool.Consistent, Writable, Rewound, HeldIn, Within, Beside, Flat, Spans, Unwire, FromLittleEndian,
         Frames, Rest, Delivered, ReadSoFar, FirstOf;
    ghost var all := c.Received();
    msgs := [];
    NothingRead(all);
    var count := c.recvqCount;
    ReceivedCount(c);
    while count >= HEAD_SIZE
      invariant c.Valid() && c.Others() == old(c.Others()) && c.pool.owned <= old(c.pool.owned)
      invariant 0 <= count == |c.Received()| && c.Sending() == old(c.Sending())
      invariant ReadSoFar(all, msgs, c.Received())
      decreases count
    {
      ghost var s := c.Received();
      var word := c.CopyReceive(4);
      var pktlen := FromLittleEndian(word);
      NextFrame(all, msgs, s);
      if pktlen >= HEAD_SIZE && count >= pktlen {
        var m := ReceiveOne(c, pktlen);
        msgs := msgs + [m];
        count := count - pktlen;
      } else {
        break;
      }
    }
    AllRead(all, msgs, c.Received());
    FirstBytes(all);
  }

  /** Of `all`, the messages `msgs` have been delivered, and the bytes `s` are left. */
  ghost predicate ReadSoFar(all: seq<byte>, msgs: seq<Message>, s: seq<byte>) {
    Delivered(Frames(all)) == msgs + Delivered(Frames(s)) && Rest(all) == Rest(s)
  }

  /** What stands first in the received bytes `s`, when `msgs` are delivered and `left` stays: size, code, sender,
      receiver and session, the lowest byte first. */
  predicate FirstOf(s: seq<byte>, msgs: seq<Message>, left: seq<byte>) {
    if |s| >= 16 && 16 <= Number(s[0], s[1], s[2], s[3]) <= |s| then
      msgs != [] && msgs[0] == Message(Number(s[4], s[5], 0, 0),
                                       MailboxID(s[9], Number(s[6], s[7], s[8], 0)),
                                       MailboxID(s[13], Number(s[10], s[11], s[12], 0)),
                                       Number(s[14], s[15], 0, 0), s[16..Number(s[0], s[1], s[2], s[3])])
    else msgs == [] && left == s
  }

  lemma FirstBytes(s: seq<byte>)
    ensures FirstOf(s, Delivered(Frames(s)), Rest(s))
  {
    hide FromLittleEndian, Unwire, Frames, Rest, Delivered;
    if |s| >= 16 {
      AssembledFrom(s[..4]);
    }
    if FirstFrame(s) == 0 {
      NoFrame(s);
    } else {
      FirstDelivered(s);
      var f := s[..FirstFrame(s)];
      UnwireBytes(f);
      assert f[16..] == s[16..|f|];
    }
  }

  lemma NothingRead(all: seq<byte>)
    ensures ReadSoFar(all, [], all)
  {
  }

  /** One round of the loop. */
  lemma NextFrame(all: seq<byte>, msgs: seq<Message>, s: seq<byte>)
    requires |s| >= HEAD_SIZE && ReadSoFar(all, msgs, s)
    ensures var n := FromLittleEndian(s[..4]);
      if HEAD_SIZE <= n <= |s| then ReadSoFar(all, msgs + [Unwire(s[..n])], s[n..]) else FirstFrame(s) == 0
  {
    hide Unwire, FromLittleEndian;
    if FirstFrame(s) != 0 {
      FirstDelivered(s);
      var n := FromLittleEndian(s[..4]);
      OneMore(msgs, Unwire(s[..n]), Delivered(Frames(s[n..])));
    }
  }

  lemma FirstDelivered(s: seq<byte>)
    requires FirstFrame(s) != 0
    ensures var n := FromLittleEndian(s[..4]);
      && n == FirstFrame(s) && HEAD_SIZE <= n <= |s|
      && Delivered(Frames(s)) == [Unwire(s[..n])] + Delivered(Frames(s[n..])) && Rest(s) == Rest(s[n..])
  {
    hide Unwire, FromLittleEndian, Delivered;
    var n := FirstFrame(s);
    DeliveredCons(s[..n], Frames(s[n..]));
  }

  lemma OneMore(msgs: seq<Message>, m: Message, more: seq<Message>)
    ensures msgs + ([m] + more) == msgs + [m] + more
  {
  }

  lemma NoFrame(s: seq<byte>)
    requires FirstFrame(s) == 0
    ensures Delivered(Frames(s)) == [] && Rest(s) == s
  {
  }

  lemma AllRead(all: seq<byte>, msgs: seq<Message>, s: seq<byte>)
    requires FirstFrame(s) == 0 && ReadSoFar(all, msgs, s)
    ensures Delivered(Frames(all)) == msgs && Rest(all) == s
  {
    hide Frames, Rest, Delivered;
    NoFrame(s);
  }

  // ---------------------------------------------------------------- sending

  function HeadValues(m: Message, size: nat): seq<PacketValues.Value> {
    [PacketValues.Unsigned(4, size), PacketValues.Unsigned(2, m.code), PacketValues.Unsigned(4, m.from.ValueID()),
     PacketValues.Unsigned(4, m.to.ValueID()), PacketValues.Unsigned(2, m.session)]
  }

  lemma HeadEncoding(m: Message, size: nat)
    ensures PacketValues.Encodings(HeadValues(m, size)) == Head(m, size)
  {
    hide LittleEndian, MailboxID.ValueID, PacketValues.Encodings;
    var vs := HeadValues(m, size);
    PacketValues.NothingEncoded(vs, [], 0);
    for i := 0 to 5
      invariant PacketValues.Encodings(vs[..i]) == Head(m, size)[..if i < 2 then 4 * i else if i < 5 then 4 * i - 2 else 16]
    {
      PacketValues.EncodingsSnoc(vs[..i], vs[i]);
      assert vs[..i + 1] == vs[..i] + [vs[i]];
    }
    assert vs[..5] == vs;
  }

  /** WriteHead: the head overwrites the first bytes, which were skipped before. */
  method WriteHead(msgout: PacketOut, m: Message)
    requires msgout.Valid() && HEAD_SIZE <= |msgout.cells| && msgout.cells[HEAD_SIZE..] == CellsOf(m.body)
    modifies msgout, msgout.pool, msgout.pool.owned, msgout.pool.Arrays()
    ensures msgout.Valid() && msgout.cells == CellsOf(Wire(m))
    ensures msgout.Others() == old(msgout.Others())
    ensures StillExclusive(msgout.Others(), old(msgout.pool.live), msgout.pool.live)
    ensures forall e <- old(msgout.Others()) :: Content(e) == old(Content(e))
    ensures msgout.pool.owned >= old(msgout.pool.owned) && fresh(msgout.pool.owned - old(msgout.pool.owned))
    ensures forall c <- msgout.pool.owned - old(msgout.pool.owned) :: fresh(c.data)
  {
    hide MemoryPool.Consistent, OwnedBy, Put, StillExclusive, Content, PacketOut.Valid, PacketOut.Others, LittleEndian,
         CellsOf, Head, PacketValues.Encodings, Exclusive, Spans, MailboxID.ValueID;
    PacketValues.PacketShape(msgout);
    HeadCells(msgout.cells, m);
    msgout.SkipTo(0);
    HeadEncoding(m, msgout.size);
    PacketValues.PacketShape(msgout);
    PacketValues.WriteAll(msgout, HeadValues(m, msgout.size));
  }

  lemma HeadCells(cells: seq<Cell>, m: Message)
    requires HEAD_SIZE <= |cells| && cells[HEAD_SIZE..] == CellsOf(m.body)
    ensures |cells| == HEAD_SIZE + |m.body| && Extend(cells, 0) == cells
    ensures Put(cells, 0, Head(m, |cells|)) == CellsOf(Wire(m))
  {
    hide Head;
  }

  /** A new message with its body, as its sender builds it: the head is skipped, `body` is written behind it. */
  method Compose(pool: MemoryPool, approx: nat, body: seq<byte>) returns (msgout: PacketOut)
    requires pool.Valid()
    modifies pool, pool.owned, pool.Arrays()
    ensures msgout.Valid() && fresh(msgout) && msgout.pool == pool && msgout.Others() == old(pool.live)
    ensures HEAD_SIZE <= |msgout.cells| && msgout.cells[HEAD_SIZE..] == CellsOf(body)
    ensures StillExclusive(msgout.Others(), old(pool.live), pool.live)
    ensures forall e <- old(pool.live) :: Content(e) == old(Content(e))
    ensures pool.owned >= old(pool.owned) && fresh(pool.owned - old(pool.owned))
    ensures forall c <- pool.owned - old(pool.owned) :: fresh(c.data)
  {
    hide MemoryPool.Consistent, OwnedBy, Put, StillExclusive, Content, PacketOut.Valid, PacketOut.Others, CellsOf,
         Exclusive, Spans;
    LiveInside(pool);
    ghost var start := pool.live;
    msgout := new PacketOut(if approx < HEAD_SIZE then HEAD_SIZE else approx, pool);
    PacketValues.PacketShape(msgout);
    msgout.SkipTo(HEAD_SIZE);
    PacketValues.PacketShape(msgout);
    SkippedHead(msgout.cells, body);
    ghost var mid := pool.live;
    msgout.PutByte(body);
    PacketValues.StillAndStill(msgout.Others(), start, mid, pool.live);
  }

  lemma SkippedHead(cells: seq<Cell>, body: seq<byte>)
    requires cells == Extend([], HEAD_SIZE)
    ensures HEAD_SIZE == |cells| && HEAD_SIZE <= |Put(cells, HEAD_SIZE, body)|
    ensures Put(cells, HEAD_SIZE, body)[HEAD_SIZE..] == CellsOf(body)
  {
  }

  lemma LiveInside(pool: MemoryPool)
    requires pool.Valid()
    ensures forall e <- pool.live :: e.offset + e.count <= e.chunk.data.Length
  {
  }

  /** The connection keeps its windows and their bytes while others build packets. */
  twostate lemma Untouched(c: Client, new others: multiset<Extent>)
    requires old(c.Core()) && c.sendq == old(c.sendq) && c.recvq == old(c.recvq) && c.recvp == old(c.recvp)
    requires c.pool.Valid() && Within(c.Held(), others) && Within(others, c.pool.live)
    requires StillExclusive(others, old(c.pool.live), c.pool.live)
    requires forall e <- others :: e in old(c.pool.live) && e.offset + e.count <= e.chunk.data.Length
    requires forall e <- others :: Content(e) == old(Content(e))
    ensures c.Core() && c.Received() == old(c.Received()) && c.Sending() == old(c.Sending())
  {
    hide MemoryPool.Consistent, Flat, Exclusive, Content, Total;
    HeldSpans(c.sendq, c.recvq, c.recvp);
    FlatUnchanged(c.sendq);
    FlatUnchanged(c.recvq);
  }

  lemma HeldSpans(sendq: seq<Window>, recvq: seq<Window>, recvp: seq<Window>)
    ensures forall i | 0 <= i < |sendq| :: sendq[i].Span() in HeldIn(sendq, recvq, recvp)
    ensures forall i | 0 <= i < |recvq| :: recvq[i].Span() in HeldIn(sendq, recvq, recvp)
    ensures forall i | 0 <= i < |recvp| :: recvp[i].Span() in HeldIn(sendq, recvq, recvp)
  {
    assert forall i | 0 <= i < |sendq| :: Spans(sendq)[i] in multiset(Spans(sendq));
    assert forall i | 0 <= i < |recvq| :: Spans(recvq)[i] in multiset(Spans(recvq));
    assert forall i | 0 <= i < |recvp| :: Spans(recvp)[i] in multiset(Spans(recvp));
  }

  /** The head is written beside a connection. */
  method WriteHeadBeside(c: Client, msgout: PacketOut, m: Message)
    requires c.Core() && msgout.Valid() && c.pool == msgout.pool && Within(c.Held(), msgout.Others())
    requires HEAD_SIZE <= |msgout.cells| && msgout.cells[HEAD_SIZE..] == CellsOf(m.body)
    modifies msgout, c.pool, c.pool.owned, c.pool.Arrays()
    ensures c.Core() && c.Sending() == old(c.Sending()) && c.Received() == old(c.Received())
    ensures msgout.Valid() && msgout.cells == CellsOf(Wire(m)) && msgout.Others() == old(msgout.Others())
    ensures c.pool.owned >= old(c.pool.owned) && fresh(c.pool.owned - old(c.pool.owned))
    ensures forall n <- c.pool.owned - old(c.pool.owned) :: fresh(n.data)
  {
    hide MemoryPool.Consistent, Writable, Rewound, HeldIn, Beside, Flat, Spans, PacketOut.Valid, PacketOut.Others, CellsOf, Wire,
         StillExclusive, Content, Exclusive;
    PacketValues.PacketShape(msgout);
    ghost var others := msgout.Others();
    WriteHead(msgout, m);
    PacketValues.PacketShape(msgout);
    OthersAndData(msgout);
    Untouched(c, others);
  }

  /** The packet's bytes are fetched beside a connection. */
  method FetchBeside(c: Client, msgout: PacketOut) returns (data: seq<Window>)
    requires c.Core() && msgout.Valid() && c.pool == msgout.pool && Within(c.Held(), msgout.Others())
    modifies c.pool`live, c.pool.owned
    ensures c.Core() && c.Sending() == old(c.Sending()) && c.Received() == old(c.Received())
    ensures AllInside(data) && AllInside(msgout.data) && msgout.size <= |Flat(msgout.data)|
    ensures Flat(data) == Flat(msgout.data)[..msgout.size]
    ensures c.pool.live == old(msgout.Others()) + multiset(Spans(msgout.data)) + multiset(Spans(data))
  {
    hide MemoryPool.Consistent, Writable, Rewound, HeldIn, Beside, Flat, Spans, StillExclusive, Content, Exclusive, PacketOut.Others,
         PacketOut.Valid;
    PacketValues.PacketShape(msgout);
    OthersAndData(msgout);
    data := msgout.FetchData();
    Untouched(c, old(msgout.Others()));
  }

  lemma OthersAndData(msgout: PacketOut)
    requires msgout.Valid()
    ensures msgout.pool.Valid() && msgout.pool.live == msgout.Others() + multiset(Spans(msgout.data))
    ensures AllInside(msgout.data) && msgout.size <= |Flat(msgout.data)|
  {
    CursorInside(msgout.data, msgout.pos, msgout.posY);
  }

  /** Queues the fetched windows, sends what the kernel takes, and lets the fetched windows go. */
  method PushSend(c: Client, data: seq<Window>, results: seq<nat>) returns (wire: seq<byte>)
    requires c.Core() && AllInside(data) && Within(multiset(Spans(data)), c.Others())
    modifies c`sendq, c.pool, c.pool.owned
    ensures c.Core() && old(c.Sending()) + old(Flat(data)) == wire + c.Sending() && c.Received() == old(c.Received())
    ensures c.Others() == old(Beside(c.Others(), multiset(Spans(data)))) && c.pool.owned <= old(c.pool.owned)
  {
    hide MemoryPool.Consistent, Writable, Rewound, HeldIn, Within, Beside, Flat, Spans, Client.Others;
    OthersCanBeSent(c, data);
    ghost var sending, s := c.Sending(), Flat(data);
    c.Enqueue(data);
    ghost var completed;
    wire, completed := c.InvokeSend(results);
    assert c.Others() == old(c.Others());
    c.Discard(data);
  }

  lemma OthersCanBeSent(c: Client, data: seq<Window>)
    requires c.Core() && Within(multiset(Spans(data)), c.Others())
    ensures forall w <- data :: w.Span() in c.Others() && w.chunk in c.pool.owned
  {
    hide Spans;
    forall i | 0 <= i < |data|
      ensures data[i].Span() in c.Others() && data[i].chunk in c.pool.owned
    {
      assert Spans(data)[i] in multiset(Spans(data));
      assert data[i].Span() in c.pool.live;
    }
  }

  /** SendMessage: writes the head, queues the packet's bytes and sends what the kernel takes. */
  method SendMessage(c: Client, msgout: PacketOut, m: Message, results: seq<nat>) returns (wire: seq<byte>)
    requires c.Core() && msgout.Valid() && c.pool == msgout.pool && Within(c.Held(), msgout.Others())
    requires HEAD_SIZE <= |msgout.cells| && msgout.cells[HEAD_SIZE..] == CellsOf(m.body)
    modifies c`sendq, msgout, c.pool, c.pool.owned, c.pool.Arrays()
    ensures c.Core() && old(c.Sending()) + Wire(m) == wire + c.Sending() && c.Received() == old(c.Received())
    ensures c.Others() == old(Beside(msgout.Others(), c.Held())) + multiset(Spans(msgout.data))
    ensures fresh(c.pool.owned - old(c.pool.owned))
    ensures forall n <- c.pool.owned - old(c.pool.owned) :: fresh(n.data)
  {
    hide MemoryPool.Consistent, Writable, Rewound, HeldIn, Within, Beside, Flat, Spans, PacketOut.Valid, PacketOut.Others,
         CellsOf, Wire;
    ghost var others, held := msgout.Others(), c.Held();
    WriteHeadBeside(c, msgout, m);
    PacketValues.FetchedBytes(msgout, Wire(m));
    var data := FetchBeside(c, msgout);
    LiveBeside(others, multiset(Spans(msgout.data)), multiset(Spans(data)), held);
    wire := PushSend(c, data, results);
  }

  lemma LiveBeside(others: multiset<Extent>, a: multiset<Extent>, b: multiset<Extent>, held: multiset<Extent>)
    requires Within(held, others)
    ensures Within(b, Beside(others + a + b, held))
    ensures Beside(Beside(others + a + b, held), b) == Beside(others, held) + a
  {
  }
}
