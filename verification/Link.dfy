/** Two connected nodes: what one sends and what the other has received, over every run. */
module Link {
  import opened Bytes
  import opened Memory
  import opened Windows
  import opened PacketWriter
  import opened Client
  import opened Message
  import opened Connector
  import PacketValues

  /** A message is built beside a connection. */
  method ComposeBeside(c: Client, approx: nat, body: seq<byte>) returns (msgout: PacketOut)
    requires c.Core()
    modifies c.pool, c.pool.owned, c.pool.Arrays()
    ensures c.Core() && c.Sending() == old(c.Sending()) && c.Received() == old(c.Received())
    ensures msgout.Valid() && fresh(msgout) && msgout.pool == c.pool && msgout.Others() == old(c.pool.live)
    ensures HEAD_SIZE <= |msgout.cells| && msgout.cells[HEAD_SIZE..] == CellsOf(body)
    ensures Within(c.Held(), msgout.Others())
    ensures fresh(c.pool.owned - old(c.pool.owned))
    ensures forall n <- c.pool.owned - old(c.pool.owned) :: fresh(n.data)
  {
    hide MemoryPool.Consistent, Writable, Rewound, HeldIn, Beside, Flat, Spans, StillExclusive, Content, Exclusive,
         PacketOut.Valid, PacketOut.Others, CellsOf;
    LiveInside(c.pool);
    msgout := Compose(c.pool, approx, body);
    OthersAndData(msgout);
    Untouched(c, old(c.pool.live));
  }

  /** One message from its construction to the send queue; `wire` is what left at once. */
  method Transmit(c: Client, m: Message, approx: nat, results: seq<nat>) returns (wire: seq<byte>)
    requires c.Valid()
    modifies c`sendq, c.pool, c.pool.owned, c.pool.Arrays()
    ensures c.Valid() && c.Others() == old(c.Others())
    ensures old(c.Sending()) + Wire(m) == wire + c.Sending() && c.Received() == old(c.Received())
    ensures fresh(c.pool.owned - old(c.pool.owned))
    ensures forall n <- c.pool.owned - old(c.pool.owned) :: fresh(n.data)
  {
    hide MemoryPool.Consistent, Writable, Rewound, HeldIn, Within, Beside, Flat, Spans, PacketOut.Valid, PacketOut.Others,
         CellsOf, Wire;
    ghost var others := c.Others();
    var msgout := ComposeBeside(c, approx, m.body);
    assert Beside(msgout.Others(), c.Held()) == others;
    wire := SendMessage(c, msgout, m, results);
    GivesBack(others, msgout.data);
    c.Discard(msgout.data);
  }

  /** One successful readv and the OnReceive that follows it. */
  method ArriveOnce(c: Client, kernel: seq<byte>, limit: nat) returns (n: nat, msgs: seq<Message>)
    requires c.Valid() && limit > 0 && kernel != []
    modifies c`recvp, c`recvq, c`recvqCount, c.pool, c.pool.owned, c.pool.Arrays()
    ensures c.Valid() && c.Others() == old(c.Others()) && c.Sending() == old(c.Sending())
    ensures 0 < n <= |kernel|
    ensures msgs == Delivered(Frames(old(c.Received()) + kernel[..n]))
    ensures c.Received() == Rest(old(c.Received()) + kernel[..n])
    ensures fresh(c.pool.owned - old(c.pool.owned))
    ensures forall n <- c.pool.owned - old(c.pool.owned) :: fresh(n.data)
  {
    hide MemoryPool.Consistent, Writable, Rewound, HeldIn, Within, Beside, Flat, Spans, Frames, Rest, Delivered, Content;
    n := c.ReadOnce(kernel, limit);
    msgs := OnReceive(c);
  }

  /** OnEventIOReadable: reads until the kernel has nothing more and hands every packet on. Each entry of `limits`
      bounds one readv; 0 says that the kernel has nothing for now. */
  method Arrive(c: Client, kernel: seq<byte>, limits: seq<nat>) returns (taken: nat, msgs: seq<Message>)
    requires c.Valid() && FirstFrame(c.Received()) == 0
    modifies c`recvp, c`recvq, c`recvqCount, c.pool, c.pool.owned, c.pool.Arrays()
    ensures c.Valid() && c.Others() == old(c.Others()) && c.Sending() == old(c.Sending())
    ensures taken <= |kernel|
    ensures msgs == Delivered(Frames(old(c.Received()) + kernel[..taken]))
    ensures c.Received() == Rest(old(c.Received()) + kernel[..taken])
    ensures fresh(c.pool.owned - old(c.pool.owned))
    ensures forall n <- c.pool.owned - old(c.pool.owned) :: fresh(n.data)
  {
    hide MemoryPool.Consistent, Writable, Rewound, HeldIn, Within, Beside, Flat, Spans, Frames, Rest, Delivered,
         Client.Others, Client.Sending, Client.Received;
    taken, msgs := 0, [];
    ghost var before := c.Received();
    NoFrame(before);
    assert before + kernel[..0] == before;
    var i := 0;
    while i < |limits| && limits[i] > 0 && taken < |kernel|
      invariant c.Valid() && c.Others() == old(c.Others()) && c.Sending() == old(c.Sending())
      invariant 0 <= i <= |limits| && taken <= |kernel|
      invariant msgs == Delivered(Frames(before + kernel[..taken])) && c.Received() == Rest(before + kernel[..taken])
      invariant fresh(c.pool.owned - old(c.pool.owned))
      invariant forall n <- c.pool.owned - old(c.pool.owned) :: fresh(n.data)
    {
      var n, more := ArriveOnce(c, kernel[taken..], limits[i]);
      ReadMore(before + kernel[..taken], kernel[taken..][..n]);
      KernelSlice(before, kernel, taken, n);
      msgs := msgs + more;
      taken := taken + n;
      i := i + 1;
    }
  }

  lemma KernelSlice(before: seq<byte>, kernel: seq<byte>, taken: nat, n: nat)
    requires taken + n <= |kernel|
    ensures before + kernel[..taken] + kernel[taken..][..n] == before + kernel[..taken + n]
  {
  }

  /** Cutting what was left over together with what came next continues the cutting. */
  lemma ReadMore(s: seq<byte>, more: seq<byte>)
    ensures Delivered(Frames(s + more)) == Delivered(Frames(s)) + Delivered(Frames(Rest(s) + more))
    ensures Rest(s + more) == Rest(Rest(s) + more)
  {
    hide Frames, Rest, Unwire;
    FramesSplit(s, more);
    DeliveredCat(Frames(s), Frames(Rest(s) + more));
  }

  lemma DeliveredCat(a: seq<seq<byte>>, b: seq<seq<byte>>)
    requires (forall f <- a :: |f| >= HEAD_SIZE) && (forall f <- b :: |f| >= HEAD_SIZE)
    ensures (forall f <- a + b :: |f| >= HEAD_SIZE) && Delivered(a + b) == Delivered(a) + Delivered(b)
  {
    hide Unwire;
  }

  // ---------------------------------------------------------------- two nodes

  /** Two nodes share no memory. */
  ghost predicate Separate(p: MemoryPool, q: MemoryPool)
    reads p, q
  {
    p != q && p.owned !! q.owned && p.Arrays() !! q.Arrays()
  }

  /** What a connection holds lies in its pool's memory. */
  lemma QueueArrays(c: Client)
    requires c.Core()
    ensures forall w <- c.recvq :: w.chunk.data in c.pool.Arrays()
    ensures forall w <- c.sendq :: w.chunk.data in c.pool.Arrays()
  {
    HeldSpans(c.sendq, c.recvq, c.recvp);
    forall i | 0 <= i < |c.recvq|
      ensures c.recvq[i].chunk in c.pool.owned
    {
      assert c.recvq[i].Span() in c.Held();
    }
    forall i | 0 <= i < |c.sendq|
      ensures c.sendq[i].chunk in c.pool.owned
    {
      assert c.sendq[i].Span() in c.Held();
    }
  }

  /** `Transmit` on one node leaves the other one alone. */
  method TransmitApart(c: Client, other: Client, m: Message, approx: nat, results: seq<nat>) returns (wire: seq<byte>)
    requires c.Valid() && other.Valid() && c != other && Separate(c.pool, other.pool)
    modifies c`sendq, c.pool, c.pool.owned, c.pool.Arrays()
    ensures c.Valid() && other.Valid() && Separate(c.pool, other.pool)
    ensures old(c.Sending()) + Wire(m) == wire + c.Sending() && c.Received() == old(c.Received())
    ensures other.Sending() == old(other.Sending()) && other.Received() == old(other.Received())
    ensures fresh(c.pool.owned - old(c.pool.owned))
    ensures forall n <- c.pool.owned - old(c.pool.owned) :: fresh(n.data)
  {
    hide MemoryPool.Consistent, Writable, Rewound, HeldIn, Within, Beside, Flat, Spans, Wire;
    QueueArrays(other);
    wire := Transmit(c, m, approx, results);
  }

  /** OnEventIOWriteable on one node leaves the other one alone. */
  method WriteApart(c: Client, other: Client, results: seq<nat>) returns (wire: seq<byte>)
    requires c.Valid() && other.Valid() && c != other && Separate(c.pool, other.pool)
    modifies c`sendq, c.pool, c.pool.owned, c.pool.Arrays()
    ensures c.Valid() && other.Valid() && Separate(c.pool, other.pool)
    ensures old(c.Sending()) == wire + c.Sending() && c.Received() == old(c.Received())
    ensures other.Sending() == old(other.Sending()) && other.Received() == old(other.Received())
    ensures fresh(c.pool.owned - old(c.pool.owned))
    ensures forall n <- c.pool.owned - old(c.pool.owned) :: fresh(n.data)
  {
    hide MemoryPool.Consistent, Writable, Rewound, HeldIn, Within, Beside, Flat, Spans;
    QueueArrays(other);
    var completed;
    wire, completed := c.InvokeSend(results);
  }

  /** `Arrive` on one node leaves the other one alone. */
  method ArriveApart(c: Client, other: Client, kernel: seq<byte>, limits: seq<nat>)
    returns (taken: nat, msgs: seq<Message>)
    requires c.Valid() && other.Valid() && c != other && Separate(c.pool, other.pool)
    requires FirstFrame(c.Received()) == 0
    modifies c`recvp, c`recvq, c`recvqCount, c.pool, c.pool.owned, c.pool.Arrays()
    ensures c.Valid() && other.Valid() && Separate(c.pool, other.pool)
    ensures c.Sending() == old(c.Sending()) && taken <= |kernel|
    ensures msgs == Delivered(Frames(old(c.Received()) + kernel[..taken]))
    ensures c.Received() == Rest(old(c.Received()) + kernel[..taken])
    ensures other.Sending() == old(other.Sending()) && other.Received() == old(other.Received())
    ensures fresh(c.pool.owned - old(c.pool.owned))
    ensures forall n <- c.pool.owned - old(c.pool.owned) :: fresh(n.data)
  {
    hide MemoryPool.Consistent, Writable, Rewound, HeldIn, Within, Beside, Flat, Spans, Frames, Rest, Delivered, FirstFrame,
         Client.Received, Client.Sending, AllInside;
    QueueArrays(other);
    taken, msgs := Arrive(c, kernel, limits);
  }

  /** What can happen on a link from one node to another; the numbers are the kernel's choices. */
  datatype Event =
    | Send(m: Message, approx: nat, results: seq<nat>)
    | CanWrite(results: seq<nat>)
    | CanRead(limits: seq<nat>)

  predicate Sendable(script: seq<Event>) {
    forall i | 0 <= i < |script| :: script[i].Send? ==> script[i].m.InRange()
  }

  function SentBy(script: seq<Event>): (ms: seq<Message>)
    requires Sendable(script)
    ensures AllInRange(ms)
    decreases |script|
  {
    if script == [] then []
    else
      var n := |script| - 1;
      SentBy(script[..n]) + SentIn(script[n])
  }

  function SentIn(e: Event): seq<Message> {
    if e.Send? then [e.m] else []
  }

  /** Every byte of the sent messages is in exactly one place, and the complete messages among those that arrived have
      been handed over. */
  ghost predicate LinkInv(sent: seq<Message>, delivered: seq<Message>, received: seq<byte>, wire: seq<byte>,
                          sending: seq<byte>)
  {
    AllInRange(sent) && exists arrived ::
      arrived + wire + sending == Stream(sent)
      && delivered == Delivered(Frames(arrived)) && received == Rest(arrived)
  }

  lemma LinkStart()
    ensures LinkInv([], [], [], [], []) && FirstFrame([]) == 0
  {
    var none: seq<byte> := [];
    assert none + none + none == Stream([]) && [] == Delivered(Frames(none)) && none == Rest(none);
  }

  lemma LinkSend(sent: seq<Message>, delivered: seq<Message>, received: seq<byte>, wire: seq<byte>, sending: seq<byte>,
                 m: Message, out: seq<byte>, sending': seq<byte>)
    requires LinkInv(sent, delivered, received, wire, sending) && m.InRange()
    requires sending + Wire(m) == out + sending'
    ensures LinkInv(sent + [m], delivered, received, wire + out, sending')
  {
    hide Wire, Frames, Rest, Delivered, Stream;
    var arrived :| arrived + wire + sending == Stream(sent)
      && delivered == Delivered(Frames(arrived)) && received == Rest(arrived);
    StreamCat(sent, [m]);
    StreamOne(m);
    assert arrived + (wire + out) + sending' == arrived + wire + (out + sending');
    assert arrived + wire + (sending + Wire(m)) == arrived + wire + sending + Wire(m);
  }

  lemma StreamOne(m: Message)
    ensures Stream([m]) == Wire(m)
  {
    hide Wire;
    assert Stream([m]) == Wire(m) + Stream([]);
  }

  lemma LinkWrite(sent: seq<Message>, delivered: seq<Message>, received: seq<byte>, wire: seq<byte>, sending: seq<byte>,
                  out: seq<byte>, sending': seq<byte>)
    requires LinkInv(sent, delivered, received, wire, sending) && sending == out + sending'
    ensures LinkInv(sent, delivered, received, wire + out, sending')
  {
    hide Wire, Frames, Rest, Delivered, Stream;
    var arrived :| arrived + wire + sending == Stream(sent)
      && delivered == Delivered(Frames(arrived)) && received == Rest(arrived);
    assert arrived + (wire + out) + sending' == arrived + wire + (out + sending');
  }

  lemma LinkRead(sent: seq<Message>, delivered: seq<Message>, received: seq<byte>, wire: seq<byte>, sending: seq<byte>,
                 taken: nat)
    requires LinkInv(sent, delivered, received, wire, sending) && taken <= |wire|
    ensures LinkInv(sent, delivered + Delivered(Frames(received + wire[..taken])), Rest(received + wire[..taken]),
                    wire[taken..], sending)
  {
    hide Wire, Frames, Rest, Delivered, Stream;
    var arrived :| arrived + wire + sending == Stream(sent)
      && delivered == Delivered(Frames(arrived)) && received == Rest(arrived);
    ReadMore(arrived, wire[..taken]);
    assert arrived + wire[..taken] + wire[taken..] + sending == arrived + wire + sending;
  }

  /** What the invariant means: a prefix has been delivered, the rest is under way; all of it has been delivered when
      nothing is under way. */
  lemma LinkDelivers(sent: seq<Message>, delivered: seq<Message>, received: seq<byte>, wire: seq<byte>,
                     sending: seq<byte>)
    requires LinkInv(sent, delivered, received, wire, sending)
    ensures delivered <= sent && Stream(sent) == Stream(delivered) + received + wire + sending
    ensures |delivered| < |sent| ==> |received| < |Wire(sent[|delivered|])|
    ensures wire + sending == [] ==> delivered == sent && received == []
  {
    hide Wire, Frames, Rest, Delivered, Stream;
    var arrived :| arrived + wire + sending == Stream(sent)
      && delivered == Delivered(Frames(arrived)) && received == Rest(arrived);
    assert arrived == Stream(sent)[..|arrived|] && arrived <= Stream(sent);
    PrefixIsDelivered(sent, arrived);
    if wire + sending == [] {
      assert wire == [] && sending == [] && arrived + wire + sending == arrived;
      StreamIsDelivered(sent);
    }
  }

  /** A run of a link between two nodes, each with its own memory. Whatever the nodes' chunk sizes and however the
      kernel cuts what is written and read, a prefix of the sent messages has been delivered, unchanged and in order;
      once nothing is under way any more, all of them have been. */
  method RunLink(a: Client, b: Client, script: seq<Event>) returns (delivered: seq<Message>, wire: seq<byte>)
    requires a.Valid() && b.Valid() && a != b && Separate(a.pool, b.pool) && Sendable(script)
    requires a.sendq == [] && b.recvq == []
    modifies a, b, a.pool, b.pool, a.pool.owned, b.pool.owned, a.pool.Arrays(), b.pool.Arrays()
    ensures a.Valid() && b.Valid()
    ensures delivered <= SentBy(script)
    ensures Stream(SentBy(script)) == Stream(delivered) + b.Received() + wire + a.Sending()
    ensures wire + a.Sending() == [] ==> delivered == SentBy(script) && b.Received() == []
  {
    hide MemoryPool.Consistent, Writable, Rewound, HeldIn, Within, Beside, Flat, Spans, Frames, Rest, Delivered,
         FirstFrame, Stream, LinkInv, Wire, Client.Received, Client.Sending, SentBy;
    delivered, wire := [], [];
    var i := 0;
    StartOfRun(a, b, script);
    while i < |script|
      invariant 0 <= i <= |script| && a.Valid() && b.Valid() && Separate(a.pool, b.pool)
      invariant LinkInv(SentBy(script[..i]), delivered, b.Received(), wire, a.Sending())
      invariant FirstFrame(b.Received()) == 0
      invariant fresh(a.pool.owned - old(a.pool.owned)) && fresh(b.pool.owned - old(b.pool.owned))
      invariant forall n <- a.pool.owned - old(a.pool.owned) :: fresh(n.data)
      invariant forall n <- b.pool.owned - old(b.pool.owned) :: fresh(n.data)
    {
      delivered, wire := StepLink(a, b, script[i], SentBy(script[..i]), delivered, wire);
      SentStep(script, i);
      i := i + 1;
    }
    assert script[..|script|] == script;
    LinkDelivers(SentBy(script), delivered, b.Received(), wire, a.Sending());
  }

  lemma StartOfRun(a: Client, b: Client, script: seq<Event>)
    requires a.Core() && b.Core() && a.sendq == [] && b.recvq == []
    ensures LinkInv(SentBy(script[..0]), [], b.Received(), [], a.Sending()) && FirstFrame(b.Received()) == 0
  {
    LinkStart();
  }

  lemma SentStep(script: seq<Event>, i: nat)
    requires i < |script| && Sendable(script)
    ensures SentBy(script[..i + 1]) == SentBy(script[..i]) + SentIn(script[i])
  {
    assert script[..i + 1][..i] == script[..i];
  }

  /** One event of a run. */
  method StepLink(a: Client, b: Client, e: Event, ghost sent: seq<Message>, delivered: seq<Message>, wire: seq<byte>)
    returns (delivered': seq<Message>, wire': seq<byte>)
    requires a.Valid() && b.Valid() && a != b && Separate(a.pool, b.pool) && (e.Send? ==> e.m.InRange())
    requires LinkInv(sent, delivered, b.Received(), wire, a.Sending()) && FirstFrame(b.Received()) == 0
    modifies a, b, a.pool, b.pool, a.pool.owned, b.pool.owned, a.pool.Arrays(), b.pool.Arrays()
    ensures a.Valid() && b.Valid() && Separate(a.pool, b.pool)
    ensures LinkInv(sent + SentIn(e), delivered', b.Received(), wire', a.Sending())
    ensures FirstFrame(b.Received()) == 0
    ensures fresh(a.pool.owned - old(a.pool.owned)) && fresh(b.pool.owned - old(b.pool.owned))
    ensures forall n <- a.pool.owned - old(a.pool.owned) :: fresh(n.data)
    ensures forall n <- b.pool.owned - old(b.pool.owned) :: fresh(n.data)
  {
    hide MemoryPool.Consistent, Writable, Rewound, HeldIn, Within, Beside, Flat, Spans, Frames, Rest, Delivered,
         FirstFrame, Stream, LinkInv, Wire, Client.Received, Client.Sending, SentBy;
    delivered', wire' := delivered, wire;
    ghost var received, sending := b.Received(), a.Sending();
    assert sent + [] == sent;
    match e {
      case Send(m, approx, results) =>
        var out := TransmitApart(a, b, m, approx, results);
        LinkSend(sent, delivered, received, wire, sending, m, out, a.Sending());
        wire' := wire + out;
      case CanWrite(results) =>
        var out := WriteApart(a, b, results);
        LinkWrite(sent, delivered, received, wire, sending, out, a.Sending());
        wire' := wire + out;
      case CanRead(limits) =>
        var taken, msgs := ArriveApart(b, a, wire, limits);
        LinkRead(sent, delivered, received, wire, sending, taken);
        delivered' := delivered + msgs;
        wire' := wire[taken..];
    }
  }
}
