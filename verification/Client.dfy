/** A connection's queues of windows: what is to be sent, what was received, and where the next bytes will go. */
module Client {
  import opened Bytes
  import opened Memory
  import opened Windows

  const RECVP_SIZE: nat := 20
  const SENDIOV_SIZE: nat := 200

  class Client {
    const pool: MemoryPool
    var sendq: seq<Window>
    var recvq: seq<Window>
    var recvp: seq<Window>
    var recvqCount: nat

    /** The windows that this connection holds. */
    ghost function Held(): multiset<Extent>
      reads this`sendq, this`recvq, this`recvp
    {
      HeldIn(sendq, recvq, recvp)
    }

    /** Everybody else's windows. */
    ghost function Others(): multiset<Extent>
      reads this`sendq, this`recvq, this`recvp, pool
    {
      Beside(pool.live, Held())
    }

    /** The receive pool's windows are exclusive: nobody can see the bytes that the next read will change. */
    ghost predicate Core()
      reads this`sendq, this`recvq, this`recvp, pool, pool.owned
    {
      && pool.Valid() && Within(Held(), pool.live)
      && AllInside(sendq) && Rewound(recvq) && Writable(recvp, pool.live)
    }

    ghost predicate Valid()
      reads this, pool, pool.owned
    {
      Core() && recvqCount == Total(recvq) && |recvp| <= RECVP_SIZE
    }

    constructor (pool: MemoryPool)
      requires pool.Valid()
      ensures Valid() && this.pool == pool && sendq == recvq == recvp == []
    {
      this.pool := pool;
      sendq, recvq, recvp := [], [], [];
      recvqCount := 0;
    }

    /** Tops the receive pool up with whole chunks. */
    method TopUp()
      requires Core()
      modifies this`recvp, pool, pool.owned
      ensures Core() && Others() == old(Others())
      ensures |old(recvp)| <= 20 ==> |recvp| == 20
      ensures pool.owned >= old(pool.owned) && fresh(pool.owned - old(pool.owned))
      ensures forall c <- pool.owned - old(pool.owned) :: fresh(c.data)
    {
      hide MemoryPool.Consistent, Writable, WholeChunks, HeldIn;
      if |recvp| < RECVP_SIZE {
        ghost var before := pool.live;
        var ws := pool.Aquire(RECVP_SIZE - |recvp|);
        WritableMore(recvp, ws, before, pool.chunksize);
        HeldMore(sendq, recvq, recvp, ws);
        recvp := recvp + ws;
      }
    }

    /** The same, with what it leaves alone. */
    method FillPool()
      requires Core()
      modifies this`recvp, pool, pool.owned
      ensures Core() && Others() == old(Others())
      ensures Received() == old(Received()) && Sending() == old(Sending())
      ensures forall e <- old(Others()) :: Content(e) == old(Content(e))
      ensures |old(recvp)| <= RECVP_SIZE ==> |recvp| == RECVP_SIZE
      ensures pool.owned >= old(pool.owned) && fresh(pool.owned - old(pool.owned))
      ensures forall c <- pool.owned - old(pool.owned) :: fresh(c.data)
    {
      hide MemoryPool.Consistent, Writable, Rewound, WholeChunks, HeldIn, Flat, Exclusive, Content, Within;
      LiveIsApart(pool);
      TopUp();
    }

    /** The first window of the receive pool, full, moves to the receive queue. */
    method MoveFront()
      requires Core() && recvp != []
      modifies this`recvp, this`recvq, pool, recvp[0].chunk
      ensures Core() && recvq == old(recvq) + [old(recvp)[0]] && recvp == old(recvp)[1..]
      ensures pool.live == old(pool.live) && Held() == old(Held()) && pool.owned == old(pool.owned)
    {
      hide MemoryPool.Consistent, Writable, Rewound, Spans, AllInside, MemoryPool.InUse, HeldIn, Beside;
      var ck := recvp[0];
      MoveSpans(sendq, recvq, recvp);
      MoveWindow(recvq, recvp, pool.live);
      pool.PassOn(ck.Span());
      recvq := recvq + [ck];
      recvp := recvp[1..];
    }

    /** The first `k` bytes of the receive pool's first window move to the receive queue. */
    method CutFront(k: nat)
      requires Core() && recvp != [] && 0 < k < recvp[0].count
      modifies this`recvp, this`recvq, pool, recvp[0].chunk
      ensures Core() && Others() == old(Others()) && pool.owned == old(pool.owned)
      ensures var ck := old(recvp)[0];
        && recvq == old(recvq) + [ck.ShrinkCount(ck.count - k)]
        && recvp == [ck.ForwardOffset(k)] + old(recvp)[1..]
    {
      hide MemoryPool.Consistent, Writable, Rewound, Spans, AllInside, HeldIn, Within, Beside;
      var ck := recvp[0];
      var a, b := ck.ShrinkCount(ck.count - k), ck.ForwardOffset(k);
      CutSpans(sendq, recvq, recvp, a, b);
      CutHeld(pool.live, Held(), ck.Span(), a.Span(), b.Span());
      CutFrontWindow(sendq, recvq, recvp, pool.live, k);
      FrontIsOwned(pool, ck.Span());
      pool.Cut(ck.Span(), a.Span(), b.Span());
      recvq := recvq + [a];
      recvp := [b] + recvp[1..];
    }

    /** What arrived in the receive pool's first `n` bytes is moved to the receive queue, whole windows first. */
    method Shift(n: nat)
      requires Core() && n <= Total(recvp)
      modifies this`recvp, this`recvq, pool, pool.owned
      ensures |recvp| <= |old(recvp)|
      ensures Core() && Others() == old(Others()) && pool.owned == old(pool.owned)
      ensures Flat(recvq) == old(Flat(recvq)) + old(Flat(recvp))[..n]
      ensures Flat(recvp) == old(Flat(recvp))[n..]
    {
      hide MemoryPool.Consistent, Flat, Total, HeldIn, Writable, Rewound;
      ghost var queue, room := Flat(recvq), Flat(recvp);
      var total := n;
      while total > 0
        invariant Core() && Others() == old(Others()) && pool.owned == old(pool.owned)
        invariant 0 <= total <= n <= |room| && |recvp| <= |old(recvp)|
        invariant Flat(recvq) == queue + room[..n - total]
        invariant Flat(recvp) == room[n - total..]
      {
        ghost var done := n - total;
        ghost var k := total;
        total := ShiftOne(total);
        SliceStep(room, done, k - total);
      }
    }

    /** One round of the loop in `Shift`: what is still to move. */
    method ShiftOne(total: nat) returns (left: nat)
      requires Core() && 0 < total <= Total(recvp)
      modifies this`recvp, this`recvq, pool, pool.owned
      ensures |recvp| <= |old(recvp)|
      ensures Core() && Others() == old(Others()) && pool.owned == old(pool.owned)
      ensures left < total
      ensures var k := total - left;
        && k <= |old(Flat(recvp))|
        && Flat(recvq) == old(Flat(recvq)) + old(Flat(recvp))[..k]
        && Flat(recvp) == old(Flat(recvp))[k..]
    {
      hide MemoryPool.Consistent, Exclusive, Spans, HeldIn, Flat;
      FlatStep(recvp);
      ghost var q, p := recvq, recvp;
      FrontOwned(pool, this);
      if total >= recvp[0].count {
        left := total - recvp[0].count;
        MoveFlat(q, p);
        MoveFront();
      } else {
        CutFlat(q, p, total);
        CutFront(total);
        left := 0;
      }
    }

    /** The received bytes that nobody has taken yet. */
    ghost function Received(): seq<byte>
      requires Core()
      reads this`sendq, this`recvq, this`recvp, pool, pool.owned, set w | w in recvq :: w.chunk.data
    {
      Flat(recvq)
    }

    /** The bytes still to be sent. */
    ghost function Sending(): seq<byte>
      requires Core()
      reads this`sendq, this`recvq, this`recvp, pool, pool.owned, set w | w in sendq :: w.chunk.data
    {
      Flat(sendq)
    }

    /** readv into the receive pool. Only the pool's own windows see a change. */
    method FillFrom(input: seq<byte>)
      requires Core() && |input| <= Total(recvp)
      modifies pool.Arrays()
      ensures Core()
      ensures Flat(recvp) == input + old(Flat(recvp))[|input|..]
      ensures Received() == old(Received()) && Sending() == old(Sending())
      ensures Others() == old(Others())
      ensures forall e <- old(Others()) :: Content(e) == old(Content(e))
    {
      hide MemoryPool.Consistent, Exclusive, Flat, Spans, Content;
      LiveIsApart(pool);
      PoolIsApart(sendq, recvq, recvp, pool.live);
      PoolArrays(this);
      label start:
      Scatter(recvp, input, pool.live);
      FlatUnchanged@start(recvq);
      FlatUnchanged@start(sendq);
    }

    /** One round of OnEventIOReadable: the kernel holds the bytes `kernel` and hands over at most `limit`. */
    method ReadOnce(kernel: seq<byte>, limit: nat) returns (n: nat)
      requires Valid() && limit > 0
      modifies this`recvp, this`recvq, this`recvqCount, pool, pool.owned, pool.Arrays()
      ensures Valid() && Others() == old(Others())
      ensures n <= |kernel| && n <= limit && (kernel != [] ==> n > 0)
      ensures Received() == old(Received()) + kernel[..n] && recvqCount == old(recvqCount) + n
      ensures Sending() == old(Sending())
      ensures forall e <- old(Others()) :: Content(e) == old(Content(e))
      ensures pool.owned >= old(pool.owned) && fresh(pool.owned - old(pool.owned))
      ensures forall c <- pool.owned - old(pool.owned) :: fresh(c.data)
    {
      hide MemoryPool.Consistent, Writable, Rewound, Flat, Spans, HeldIn, Exclusive, Content, Within, Beside;
      n := ReadWindows(kernel, limit);
      recvqCount := recvqCount + n;
    }

    /** The part of `ReadOnce` that deals with the windows. */
    method ReadWindows(kernel: seq<byte>, limit: nat) returns (n: nat)
      requires Core() && |recvp| <= RECVP_SIZE && limit > 0
      modifies this`recvp, this`recvq, pool, pool.owned, pool.Arrays()
      ensures Core() && |recvp| <= RECVP_SIZE && Others() == old(Others())
      ensures n <= |kernel| && n <= limit && (kernel != [] ==> n > 0)
      ensures Received() == old(Received()) + kernel[..n]
      ensures Sending() == old(Sending())
      ensures forall e <- old(Others()) :: Content(e) == old(Content(e))
      ensures pool.owned >= old(pool.owned) && fresh(pool.owned - old(pool.owned))
      ensures forall c <- pool.owned - old(pool.owned) :: fresh(c.data)
    {
      hide MemoryPool.Consistent, Writable, Rewound, Flat, Spans, HeldIn, Exclusive, Content, Within;
      LiveIsApart(pool);
      FillPool();
      SomeRoom(recvp);
      var room := RoomIn(recvp);
      n := if limit < |kernel| then limit else |kernel|;
      n := if n < room then n else room;
      Accept(kernel[..n]);
    }

    /** The kernel filled the receive pool with `input`, which then moves to the receive queue. */
    method Accept(input: seq<byte>)
      requires Core() && |input| <= Total(recvp)
      modifies this`recvp, this`recvq, pool, pool.owned, pool.Arrays()
      ensures Core() && Others() == old(Others()) && pool.owned == old(pool.owned)
      ensures |recvp| <= |old(recvp)|
      ensures Received() == old(Received()) + input
      ensures Sending() == old(Sending())
      ensures forall e <- old(Others()) :: Content(e) == old(Content(e))
    {
      hide MemoryPool.Consistent, Writable, Rewound, Spans, HeldIn, Exclusive, Content, Within, Flat;
      LiveIsApart(pool);
      ghost var rest := Flat(recvp)[|input|..];
      FillFrom(input);
      Ends(input, rest);
      Shift(|input|);
    }

    /** Recvp2IOVec: what the kernel may fill. */
    method RoomIn(ws: seq<Window>) returns (room: nat)
      ensures room == Total(ws)
    {
      room := 0;
      for i := |ws| downto 0
        invariant room == Total(ws[i..])
      {
        assert ws[i..][1..] == ws[i + 1..];
        room := room + ws[i].count;
      }
      assert ws[0..] == ws;
    }

    /** Reads up to `count` bytes of a window and rewinds its cursor. */
    method ReadAndReset(i: nat, count: nat) returns (bytes: seq<byte>)
      requires Rewound(recvq) && i < |recvq|
      modifies this`recvq
      ensures recvq == old(recvq)
      ensures var all := Content(recvq[i].Span()); bytes == if count <= |all| then all[..count] else all
    {
      var w := recvq[i];
      var free := w.count - w.pos;
      var rd := if free >= count then count else free;
      bytes := w.chunk.data[w.offset + w.pos..w.offset + w.pos + rd];
      recvq := recvq[i := w.(pos := w.pos + rd)];
      recvq := recvq[i := recvq[i].(pos := 0)];
    }

    /** Copies the first received bytes without taking them. */
    method CopyReceive(count: nat) returns (bytes: seq<byte>)
      requires Core()
      modifies this`recvq
      ensures recvq == old(recvq) && Core()
      ensures bytes == Received()[..if count < |Received()| then count else |Received()|]
    {
      hide MemoryPool.Consistent, Writable, HeldIn, Within, Flat, Content;
      ghost var q, all := recvq, Received();
      var i, left := 0, count;
      bytes := [];
      assert q[0..] == q;
      while i < |recvq| && left > 0
        invariant i <= |q| && recvq == q && 0 <= left <= count
        invariant left > 0 ==> |bytes| == count - left && all == bytes + Flat(q[i..])
        invariant left == 0 ==> |bytes| == count <= |all| && bytes == all[..count]
      {
        FlatStep(q[i..]);
        assert q[i..][0] == q[i] && q[i..][1..] == q[i + 1..];
        var more := ReadAndReset(i, left);
        CopyStep(all, bytes, Content(q[i].Span()), Flat(q[i + 1..]), more, left, count);
        bytes := bytes + more;
        left := left - |more|;
        i := i + 1;
      }
      assert q[|q|..] == [];
      FlatStep(q[|q|..]);
    }

    /** Takes one window, or a part of it, from the receive queue. */
    method PopOne(count: nat) returns (w: Window)
      requires Core() && recvq != [] && count > 0
      modifies this`recvq, pool, recvq[0].chunk
      ensures Core() && Others() == old(Others()) + multiset{w.Span()} && pool.owned == old(pool.owned)
      ensures var ck := old(recvq)[0];
        if count >= ck.count then w == ck && recvq == old(recvq)[1..]
        else w == ck.ShrinkCount(ck.count - count) && recvq == [ck.ForwardOffset(count)] + old(recvq)[1..]
    {
      hide MemoryPool.Consistent, Writable, Rewound, Spans, AllInside, HeldIn, Within, Beside;
      var ck := recvq[0];
      RewoundTail(recvq, count);
      if count >= ck.count {
        PopSpans(sendq, recvq, recvp, pool.live);
        pool.PassOn(ck.Span());
        recvq := recvq[1..];
        w := ck;
      } else {
        var a, b := ck.ShrinkCount(ck.count - count), ck.ForwardOffset(count);
        PopCutSpans(sendq, recvq, recvp, pool.live, count);
        FrontIsOwned(pool, ck.Span());
        pool.Cut(ck.Span(), a.Span(), b.Span());
        recvq := [b] + recvq[1..];
        w := a;
      }
    }

    /** Takes the first `count` received bytes, or all there are. */
    method PopReceive(count: nat) returns (dst: seq<Window>, total: nat)
      requires Valid()
      modifies this`recvq, this`recvqCount, pool, pool.owned
      ensures Valid() && pool.owned == old(pool.owned)
      ensures Rewound(dst) && Others() == old(Others()) + multiset(Spans(dst))
      ensures total == (if count < old(recvqCount) then count else old(recvqCount)) && recvqCount == old(recvqCount) - total
      ensures total <= |old(Received())| && Flat(dst) == old(Received())[..total] && Received() == old(Received())[total..]
      ensures Sending() == old(Sending())
    {
      hide MemoryPool.Consistent, Writable, HeldIn, Within, Beside, Flat, Rewound, Spans;
      dst, total := PopWindows(count);
      recvqCount := recvqCount - total;
    }

    /** The part of `PopReceive` that deals with the windows. */
    method PopWindows(count: nat) returns (dst: seq<Window>, total: nat)
      requires Core()
      modifies this`recvq, pool, pool.owned
      ensures Core() && pool.owned == old(pool.owned)
      ensures Rewound(dst) && Others() == old(Others()) + multiset(Spans(dst))
      ensures total == if count < |old(Received())| then count else |old(Received())|
      ensures Flat(dst) == old(Received())[..total] && Received() == old(Received())[total..]
    {
      hide MemoryPool.Consistent, Writable, HeldIn, Within, Beside, Flat, Rewound, Spans;
      ghost var all, others := Flat(recvq), Others();
      dst := [];
      var left := count;
      NothingTaken(all, others);
      while recvq != [] && left > 0
        invariant Core() && pool.owned == old(pool.owned) && Rewound(dst) && 0 <= left <= count
        invariant Others() == others + multiset(Spans(dst))
        invariant count - left <= |all| && Flat(dst) == all[..count - left] && Flat(recvq) == all[count - left..]
        decreases left
      {
        ghost var before := multiset(Spans(dst));
        ghost var e;
        dst, left, e := PopInto(dst, left, all, count);
        assert others + before + multiset{e} == others + (before + multiset{e});
      }
      QueueEmpty(recvq);
      total := count - left;
    }

    /** One round of the loop in `PopReceive`. */
    method PopInto(dst: seq<Window>, left: nat, ghost all: seq<byte>, ghost count: nat)
      returns (more: seq<Window>, less: nat, ghost e: Extent)
      requires Core() && recvq != [] && 0 < left <= count && Rewound(dst)
      requires count - left <= |all| && Flat(dst) == all[..count - left] && Flat(recvq) == all[count - left..]
      modifies this`recvq, pool, pool.owned
      ensures Core() && pool.owned == old(pool.owned) && Rewound(more) && less < left
      ensures Others() == old(Others()) + multiset{e} && multiset(Spans(more)) == multiset(Spans(dst)) + multiset{e}
      ensures count - less <= |all| && Flat(more) == all[..count - less] && Flat(recvq) == all[count - less..]
    {
      hide MemoryPool.Consistent, Writable, HeldIn, Within, Beside, Flat, Rewound, Spans;
      ghost var q := recvq;
      QueueOwned(this);
      PopFlat(recvq, left);
      var w := PopOne(left);
      more := dst + [w];
      less := left - w.count;
      e := w.Span();
      AppendPopped(dst, w);
      PopRound(all, count - left, w.count);
    }

    /** Appends one window, which somebody else holds too, to the send queue. */
    method PushOne(w: Window)
      requires Core() && w.Span() in Others() && w.Inside() && w.count > 0
      modifies this`sendq, pool`live, w.chunk
      ensures Core() && sendq == old(sendq) + [w] && Others() == old(Others())
    {
      hide MemoryPool.Consistent, Writable, Rewound, Spans, AllInside;
      PushSpans(sendq, recvq, recvp, pool.live, w);
      PushInside(sendq, w);
      pool.Copy(w.Span());
      sendq := sendq + [w];
    }

    /** PushSend without the attempt to send at once: copies of the windows `src` join the send queue. */
    method Enqueue(src: seq<Window>)
      requires Core() && AllInside(src) && forall w <- src :: w.Span() in Others() && w.chunk in pool.owned
      modifies this`sendq, pool`live, pool.owned
      ensures Core() && Others() == old(Others())
      ensures Sending() == old(Sending()) + Flat(src)
    {
      hide MemoryPool.Consistent, Writable, Rewound, HeldIn, Within, Beside, Flat, Spans;
      ghost var queue, others := sendq, Others();
      assert queue + src[..0] == queue;
      for i := 0 to |src|
        invariant Core() && Others() == others && sendq == queue + src[..i]
      {
        assert src[i] in src && src[..i + 1] == src[..i] + [src[i]];
        PushOne(src[i]);
      }
      assert src[..|src|] == src;
      FlatCat(queue, src);
    }

    /** Sendq2IOVec: how many bytes are offered to the kernel at once. */
    method Offered() returns (room: nat)
      requires AllInside(sendq)
      ensures room <= Total(sendq) && (sendq != [] ==> room > 0) && (sendq == [] ==> room == 0)
      ensures room == Total(sendq[..if |sendq| < 200 then |sendq| else 200])
    {
      var cnt := if |sendq| < SENDIOV_SIZE then |sendq| else SENDIOV_SIZE;
      room := RoomIn(sendq[..cnt]);
      assert sendq == sendq[..cnt] + sendq[cnt..];
      FlatCat(sendq[..cnt], sendq[cnt..]);
    }

    /** Drops one window, or a part of it, that has been sent. */
    method DropOne(num: nat) returns (left: nat)
      requires Core() && 0 < num <= Total(sendq)
      modifies this`sendq, pool, pool.owned
      ensures Core() && Others() == old(Others()) && pool.owned <= old(pool.owned)
      ensures left < num && num - left <= |old(Sending())| && Sending() == old(Sending())[num - left..]
      ensures Received() == old(Received())
    {
      hide MemoryPool.Consistent, Writable, Rewound, Spans, HeldIn, Within, Beside, Flat, Total, Exclusive, Content;
      ghost var q := sendq;
      SendFlat(sendq, num);
      var ck := sendq[0];
      SendSpans(sendq, recvq, recvp, pool.live, num);
      FrontIsOwned(pool, ck.Span());
      if num >= ck.count {
        sendq := sendq[1..];
        pool.Release(ck.Span());
        left := num - ck.count;
      } else {
        pool.Reshape(ck.Span(), ck.ForwardOffset(num).Span());
        sendq := [ck.ForwardOffset(num)] + sendq[1..];
        left := 0;
      }
    }

    /** Drops the first `num` bytes, which have been sent. */
    method DropSent(num: nat)
      requires Core() && num <= Total(sendq)
      modifies this`sendq, pool, pool.owned
      ensures Core() && Others() == old(Others()) && pool.owned <= old(pool.owned)
      ensures Sending() == old(Sending())[num..] && Received() == old(Received())
    {
      hide MemoryPool.Consistent, Writable, Rewound, HeldIn, Within, Beside, Flat, Total;
      ghost var all := Flat(sendq);
      var left := num;
      assert all[0..] == all;
      while left > 0
        invariant Core() && Others() == old(Others()) && pool.owned <= old(pool.owned)
        invariant 0 <= left <= num <= |all| && Flat(sendq) == all[num - left..]
        invariant Received() == old(Received())
      {
        ghost var done, k := num - left, left;
        left := DropOne(left);
        assert all[done..][k - left..] == all[num - left..];
      }
    }

    /** writev: the kernel takes the first `n` bytes of the send queue. */
    method Gather(n: nat) returns (bytes: seq<byte>)
      requires Core() && n <= Total(sendq)
      ensures bytes == Sending()[..n]
    {
      hide MemoryPool.Consistent, Writable, Rewound, HeldIn, Within, Flat;
      ghost var all := Flat(sendq);
      bytes := [];
      var i := 0;
      assert sendq[0..] == sendq;
      while |bytes| < n
        invariant i <= |sendq| && |bytes| <= n
        invariant |bytes| < n ==> all == bytes + Flat(sendq[i..])
        invariant |bytes| == n ==> bytes == all[..n]
        decreases n - |bytes|
      {
        var rest := sendq[i..];
        FlatStep(rest);
        var w := rest[0];
        assert rest[1..] == sendq[i + 1..];
        var k := if n - |bytes| < w.count then n - |bytes| else w.count;
        var more := w.chunk.data[w.offset..w.offset + k];
        GatherRound(all, bytes, Content(w.Span()), Flat(sendq[i + 1..]), more, n);
        bytes := bytes + more;
        i := i + 1;
      }
      assert all[..0] == [];
    }

    /** Sends until the queue is empty or the kernel takes nothing; `results` is what each writev would take.
        Everything that leaves the queue reaches the wire, in order. */
    method InvokeSend(results: seq<nat>) returns (wire: seq<byte>, completed: bool)
      requires Core()
      modifies this`sendq, pool, pool.owned
      ensures Core() && Others() == old(Others()) && pool.owned <= old(pool.owned)
      ensures old(Sending()) == wire + Sending() && Received() == old(Received())
      ensures completed <==> wire != [] && Sending() == []
    {
      hide MemoryPool.Consistent, Writable, Rewound, HeldIn, Within, Beside, Flat;
      ghost var all := Flat(sendq);
      wire := [];
      var i := 0;
      while i < |results|
        invariant Core() && Others() == old(Others()) && pool.owned <= old(pool.owned)
        invariant all == wire + Flat(sendq) && Received() == old(Received())
      {
        var rc := SendOnce(results[i]);
        if rc == [] {
          break;
        }
        WireGrows(all, wire, rc, Flat(sendq));
        wire := wire + rc;
        i := i + 1;
      }
      QueueEmpty(sendq);
      TotalOfNone(sendq);
      completed := wire != [] && sendq == [];
    }

    /** One round of the loop in `InvokeSend`. */
    method SendOnce(result: nat) returns (rc: seq<byte>)
      requires Core()
      modifies this`sendq, pool, pool.owned
      ensures Core() && Others() == old(Others()) && pool.owned <= old(pool.owned)
      ensures old(Sending()) == rc + Sending() && Received() == old(Received())
      ensures rc == [] <==> result == 0 || old(Sending()) == []
    {
      hide MemoryPool.Consistent, Writable, Rewound, HeldIn, Within, Beside, Flat;
      var room := Offered();
      var n := if result < room then result else room;
      rc := Gather(n);
      QueueEmpty(sendq);
      TotalOfNone(sendq);
      DropSent(n);
    }

    /** A window that is not the connection's own ends. */
    method DiscardOne(e: Extent)
      requires Core() && e in Others()
      modifies pool, pool.owned
      ensures Core() && Others() == old(Others()) - multiset{e} && pool.owned <= old(pool.owned)
      ensures Received() == old(Received()) && Sending() == old(Sending())
    {
      hide MemoryPool.Consistent, Writable, Rewound, Spans, HeldIn, Within, Beside, Flat;
      DiscardSpans(sendq, recvq, recvp, pool.live, e);
      FrontIsOwned(pool, e);
      pool.Release(e);
    }

    /** A popped packet's windows end. */
    method Discard(ws: seq<Window>)
      requires Core() && Within(multiset(Spans(ws)), Others())
      modifies pool, pool.owned
      ensures Core() && Others() == Beside(old(Others()), multiset(Spans(ws))) && pool.owned <= old(pool.owned)
      ensures Received() == old(Received()) && Sending() == old(Sending())
    {
      hide MemoryPool.Consistent, Writable, Rewound, HeldIn, Within, Beside, Flat, Spans;
      ghost var others := Others();
      assert ws[0..] == ws;
      for i := 0 to |ws|
        invariant Core() && pool.owned <= old(pool.owned)
        invariant Within(multiset(Spans(ws[i..])), Others())
        invariant Beside(Others(), multiset(Spans(ws[i..]))) == Beside(others, multiset(Spans(ws)))
        invariant Received() == old(Received()) && Sending() == old(Sending())
      {
        DiscardRound(Others(), ws, i);
        DiscardOne(ws[i].Span());
      }
      AllDiscarded(Others(), ws);
    }
  }

  lemma DiscardSpans(sendq: seq<Window>, recvq: seq<Window>, recvp: seq<Window>, live: multiset<Extent>, e: Extent)
    requires Within(HeldIn(sendq, recvq, recvp), live) && Writable(recvp, live)
    requires e in Beside(live, HeldIn(sendq, recvq, recvp))
    ensures var held, after := HeldIn(sendq, recvq, recvp), live - multiset{e};
      && Within(held, after) && Writable(recvp, after) && Beside(after, held) == Beside(live, held) - multiset{e}
    ensures e in live
  {
    hide Overlap;
    PoolIsApart(sendq, recvq, recvp, live);
    forall i | 0 <= i < |recvp|
      ensures Exclusive(recvp[i].Span(), live - multiset{e})
    {
      assert Spans(recvp)[i] in multiset(Spans(recvp));
      ExclusiveWithFewer(recvp[i].Span(), live, e);
    }
  }

  lemma ExclusiveWithFewer(e: Extent, live: multiset<Extent>, f: Extent)
    requires Exclusive(e, live) && e != f
    ensures Exclusive(e, live - multiset{f})
  {
  }

  lemma DiscardRound(others: multiset<Extent>, ws: seq<Window>, i: nat)
    requires i < |ws| && Within(multiset(Spans(ws[i..])), others)
    ensures var e := ws[i].Span();
      && e in others && Within(multiset(Spans(ws[i + 1..])), others - multiset{e})
      && Beside(others - multiset{e}, multiset(Spans(ws[i + 1..]))) == Beside(others, multiset(Spans(ws[i..])))
  {
    hide Spans;
    HeadSpan(ws[i..]);
    assert ws[i..][1..] == ws[i + 1..];
  }

  lemma AllDiscarded(others: multiset<Extent>, ws: seq<Window>)
    ensures Beside(others, multiset(Spans(ws[|ws|..]))) == others
  {
    assert Spans(ws[|ws|..]) == [];
  }

  lemma TotalOfNone(ws: seq<Window>)
    requires AllInside(ws)
    ensures Total(ws) == 0 <==> ws == []
  {
  }

  lemma WireGrows(all: seq<byte>, wire: seq<byte>, rc: seq<byte>, rest: seq<byte>)
    requires all == wire + (rc + rest)
    ensures all == wire + rc + rest
  {
  }

  lemma GatherRound(all: seq<byte>, bytes: seq<byte>, first: seq<byte>, rest: seq<byte>, more: seq<byte>, n: nat)
    requires all == bytes + (first + rest) && |bytes| < n <= |all|
    requires more == if n - |bytes| < |first| then first[..n - |bytes|] else first
    ensures |bytes + more| <= n
    ensures |bytes + more| < n ==> all == bytes + more + rest
    ensures |bytes + more| == n ==> bytes + more == all[..n]
  {
  }

  lemma PushInside(ws: seq<Window>, w: Window)
    requires AllInside(ws) && w.Inside() && w.count > 0
    ensures AllInside(ws + [w])
  {
  }

  lemma PushSpans(sendq: seq<Window>, recvq: seq<Window>, recvp: seq<Window>, live: multiset<Extent>, w: Window)
    requires Within(HeldIn(sendq, recvq, recvp), live) && Writable(recvp, live)
    requires w.Span() in Beside(live, HeldIn(sendq, recvq, recvp))
    ensures var held := HeldIn(sendq + [w], recvq, recvp); var after := live + multiset{w.Span()};
      && Within(held, after) && Writable(recvp, after) && Beside(after, held) == Beside(live, HeldIn(sendq, recvq, recvp))
    ensures w.Span() in live
  {
    hide Overlap;
    PoolIsApart(sendq, recvq, recvp, live);
    SpansCat(sendq, [w]);
    assert Spans([w]) == [w.Span()];
    forall i | 0 <= i < |recvp|
      ensures Exclusive(recvp[i].Span(), live + multiset{w.Span()})
    {
      assert Spans(recvp)[i] in multiset(Spans(recvp));
    }
  }

  lemma SendFlat(q: seq<Window>, num: nat)
    requires AllInside(q) && 0 < num <= Total(q)
    ensures q != [] && q[0].Inside() && q[0].count > 0 && AllInside(q[1..])
    ensures var ck := q[0];
      if num >= ck.count then ck.count <= |Flat(q)| && Flat(q[1..]) == Flat(q)[ck.count..]
      else AllInside([ck.ForwardOffset(num)] + q[1..]) && Flat([ck.ForwardOffset(num)] + q[1..]) == Flat(q)[num..]
  {
    if num < q[0].count {
      CutFlat([], q, num);
    }
  }

  lemma SendSpans(sendq: seq<Window>, recvq: seq<Window>, recvp: seq<Window>, live: multiset<Extent>, num: nat)
    requires sendq != [] && num > 0 && AllInside(sendq)
    requires Within(HeldIn(sendq, recvq, recvp), live) && Writable(recvp, live)
    ensures var ck := sendq[0]; var others := Beside(live, HeldIn(sendq, recvq, recvp));
      && ck.Span() in live
      && (var after := live - multiset{ck.Span()}; var held := HeldIn(sendq[1..], recvq, recvp);
          Within(held, after) && Writable(recvp, after) && Beside(after, held) == others)
      && (num < ck.count ==>
            var b := ck.ForwardOffset(num);
            var after := live - multiset{ck.Span()} + multiset{b.Span()};
            var held := HeldIn([b] + sendq[1..], recvq, recvp);
            Within(held, after) && Writable(recvp, after) && Beside(after, held) == others)
  {
    hide Exclusive, Overlap, Part, Writable, Spans;
    var ck := sendq[0];
    HeadSpan(sendq);
    SendWritable(sendq, recvq, recvp, live, num);
    if num < ck.count {
      var b := ck.ForwardOffset(num);
      HeadSpan([b] + sendq[1..]);
      assert ([b] + sendq[1..])[1..] == sendq[1..];
      HeldReplaced(live, sendq, recvq, recvp, b);
    }
  }

  lemma HeldReplaced(live: multiset<Extent>, sendq: seq<Window>, recvq: seq<Window>, recvp: seq<Window>, b: Window)
    requires sendq != [] && Within(HeldIn(sendq, recvq, recvp), live)
    ensures var after := live - multiset{sendq[0].Span()} + multiset{b.Span()};
      var held := HeldIn([b] + sendq[1..], recvq, recvp);
      Within(held, after) && Beside(after, held) == Beside(live, HeldIn(sendq, recvq, recvp))
  {
    hide Spans;
    HeadSpan(sendq);
    HeadSpan([b] + sendq[1..]);
    assert ([b] + sendq[1..])[1..] == sendq[1..];
  }

  lemma SendWritable(sendq: seq<Window>, recvq: seq<Window>, recvp: seq<Window>, live: multiset<Extent>, num: nat)
    requires sendq != [] && num > 0 && AllInside(sendq)
    requires Within(HeldIn(sendq, recvq, recvp), live) && Writable(recvp, live)
    ensures var ck := sendq[0];
      && Writable(recvp, live - multiset{ck.Span()})
      && (num < ck.count ==> Writable(recvp, live - multiset{ck.Span()} + multiset{ck.ForwardOffset(num).Span()}))
  {
    hide HeldIn, Within, Exclusive, Overlap;
    var ck := sendq[0];
    PoolIsApart(sendq, recvq, recvp, live);
    forall i | 0 <= i < |recvp|
      ensures Exclusive(recvp[i].Span(), live - multiset{ck.Span()})
      ensures num < ck.count ==>
                Exclusive(recvp[i].Span(), live - multiset{ck.Span()} + multiset{ck.ForwardOffset(num).Span()})
    {
      var e := recvp[i].Span();
      assert Spans(recvp)[i] in multiset(Spans(recvp));
      assert e != ck.Span();
      ExclusiveWithFewer(e, live, ck.Span());
      if num < ck.count {
        ExclusiveWithPart(e, live, ck.Span(), ck.ForwardOffset(num).Span());
      }
    }
  }

  lemma ExclusiveWithPart(e: Extent, live: multiset<Extent>, f: Extent, part: Extent)
    requires Exclusive(e, live) && f in live && e != f && Part(part, f)
    ensures Exclusive(e, live - multiset{f} + multiset{part})
  {
    assert !Overlap(e, f);
  }

  lemma QueueOwned(c: Client)
    requires c.Core() && c.recvq != []
    ensures c.recvq[0].chunk in c.pool.owned
  {
    HeadSpan(c.recvq);
    assert c.recvq[0].Span() in c.Held();
  }

  lemma QueueEmpty(ws: seq<Window>)
    requires AllInside(ws)
    ensures ws == [] ==> Flat(ws) == []
    ensures |Flat(ws)| == Total(ws)
  {
  }

  lemma NothingTaken(all: seq<byte>, others: multiset<Extent>)
    ensures Flat([]) == all[..0] && all[0..] == all && Rewound([])
    ensures others == others + multiset(Spans([]))
  {
    assert Spans([]) == [];
  }

  /** What the two outcomes of `PopOne` mean for the bytes. */
  lemma PopFlat(q: seq<Window>, count: nat)
    requires Rewound(q) && q != [] && count > 0
    ensures var ck := q[0];
      if count >= ck.count then
        ck.count <= |Flat(q)| && Content(ck.Span()) == Flat(q)[..ck.count]
        && Rewound(q[1..]) && Flat(q[1..]) == Flat(q)[ck.count..]
      else
        var a, b := ck.ShrinkCount(ck.count - count), ck.ForwardOffset(count);
        count <= |Flat(q)| && Content(a.Span()) == Flat(q)[..count]
        && Rewound([b] + q[1..]) && Flat([b] + q[1..]) == Flat(q)[count..]
    ensures q[0].Inside() && q[0].count > 0 && q[0].pos == 0
  {
    hide Flat, Content;
    var ck := q[0];
    FlatStep(q);
    Ends(Content(ck.Span()), Flat(q[1..]));
    if count < ck.count {
      CutFlat([], q, count);
      CutWindow(ck, count);
      StartsWith(Content(ck.Span()), Flat(q[1..]), count);
    }
  }

  lemma Ends(a: seq<byte>, b: seq<byte>)
    ensures (a + b)[..|a|] == a && (a + b)[|a|..] == b
  {
  }

  lemma StartsWith(a: seq<byte>, b: seq<byte>, n: nat)
    requires n <= |a|
    ensures (a + b)[..n] == a[..n]
  {
  }

  lemma AppendPopped(dst: seq<Window>, w: Window)
    requires Rewound(dst) && w.Inside() && w.count > 0 && w.pos == 0
    ensures Rewound(dst + [w]) && Flat(dst + [w]) == Flat(dst) + Content(w.Span())
    ensures multiset(Spans(dst + [w])) == multiset(Spans(dst)) + multiset{w.Span()}
  {
    FlatSnoc(dst, w);
    SpansCat(dst, [w]);
    assert Spans([w]) == [w.Span()];
  }

  lemma PopRound(all: seq<byte>, done: nat, k: nat)
    requires done + k <= |all|
    ensures all[..done] + all[done..][..k] == all[..done + k] && all[done..][k..] == all[done + k..]
  {
  }

  lemma CopyStep(all: seq<byte>, taken: seq<byte>, first: seq<byte>, rest: seq<byte>, more: seq<byte>, left: nat,
                 count: nat)
    requires all == taken + (first + rest) && 0 < left <= count && |taken| == count - left
    requires more == if left <= |first| then first[..left] else first
    ensures |more| <= left
    ensures left > |more| ==> |taken + more| == count - (left - |more|) && all == taken + more + rest
    ensures left == |more| ==> |taken + more| == count <= |all| && taken + more == all[..count]
  {
  }

  lemma RewoundTail(ws: seq<Window>, k: nat)
    requires Rewound(ws) && ws != []
    ensures Rewound(ws[1..]) && AllInside(ws) && ws[0].pos == 0 && ws[0].Inside() && ws[0].count > 0
    ensures k < ws[0].count && k > 0 ==> Rewound([ws[0].ForwardOffset(k)] + ws[1..])
  {
  }

  lemma PopSpans(sendq: seq<Window>, recvq: seq<Window>, recvp: seq<Window>, live: multiset<Extent>)
    requires recvq != [] && Within(HeldIn(sendq, recvq, recvp), live)
    ensures var held := HeldIn(sendq, recvq[1..], recvp);
      Within(held, live) && Beside(live, held) == Beside(live, HeldIn(sendq, recvq, recvp)) + multiset{recvq[0].Span()}
    ensures recvq[0].Span() in live
  {
    HeadSpan(recvq);
  }

  lemma PopCutSpans(sendq: seq<Window>, recvq: seq<Window>, recvp: seq<Window>, live: multiset<Extent>, k: nat)
    requires recvq != [] && Within(HeldIn(sendq, recvq, recvp), live) && Writable(recvp, live)
    requires 0 < k < recvq[0].count
    ensures var ck := recvq[0]; var a, b := ck.ShrinkCount(ck.count - k), ck.ForwardOffset(k);
      var after := live - multiset{ck.Span()} + multiset{a.Span()} + multiset{b.Span()};
      var held := HeldIn(sendq, [b] + recvq[1..], recvp);
      && Within(held, after) && Writable(recvp, after)
      && Beside(after, held) == Beside(live, HeldIn(sendq, recvq, recvp)) + multiset{a.Span()}
    ensures recvq[0].Span() in live
  {
    hide Exclusive, Overlap, Part, Writable, Spans;
    var ck := recvq[0];
    var a, b := ck.ShrinkCount(ck.count - k), ck.ForwardOffset(k);
    HeadSpan(recvq);
    HeadSpan([b] + recvq[1..]);
    assert ([b] + recvq[1..])[1..] == recvq[1..];
    assert ck.Span() in HeldIn(sendq, recvq, recvp);
    PopCutWritable(sendq, recvq, recvp, live, k);
  }

  lemma PopCutWritable(sendq: seq<Window>, recvq: seq<Window>, recvp: seq<Window>, live: multiset<Extent>, k: nat)
    requires recvq != [] && Within(HeldIn(sendq, recvq, recvp), live) && Writable(recvp, live)
    requires 0 < k < recvq[0].count
    ensures var ck := recvq[0]; var a, b := ck.ShrinkCount(ck.count - k), ck.ForwardOffset(k);
      Writable(recvp, live - multiset{ck.Span()} + multiset{a.Span()} + multiset{b.Span()})
  {
    hide Exclusive, Overlap, Part, HeldIn, Within;
    var ck := recvq[0];
    var a, b := ck.ShrinkCount(ck.count - k), ck.ForwardOffset(k);
    PoolIsApart(sendq, recvq, recvp, live);
    PartsAreApart(ck, k);
    forall i | 0 <= i < |recvp|
      ensures Exclusive(recvp[i].Span(), live - multiset{ck.Span()} + multiset{a.Span()} + multiset{b.Span()})
    {
      assert Spans(recvp)[i] in multiset(Spans(recvp));
      OthersStayExclusive(recvp[i].Span(), ck.Span(), live, a.Span(), b.Span());
    }
  }

  lemma SomeRoom(ws: seq<Window>)
    requires AllInside(ws) && ws != []
    ensures Total(ws) > 0
  {
  }

  lemma LiveIsApart(pool: MemoryPool)
    requires pool.Valid()
    ensures Apart(pool.live)
  {
  }

  lemma PoolArrays(c: Client)
    requires c.Core()
    ensures forall w <- c.recvp :: w.chunk.data in c.pool.Arrays()
  {
    forall i | 0 <= i < |c.recvp|
      ensures c.recvp[i].chunk in c.pool.owned
    {
      assert Spans(c.recvp)[i] in multiset(Spans(c.recvp));
      assert c.recvp[i].Span() in c.Held();
    }
  }

  /** The windows of the receive pool are none of the other windows. */
  lemma PoolIsApart(sendq: seq<Window>, recvq: seq<Window>, recvp: seq<Window>, live: multiset<Extent>)
    requires Within(HeldIn(sendq, recvq, recvp), live) && Writable(recvp, live)
    ensures multiset(Spans(recvp)) <= live
    ensures forall i | 0 <= i < |recvq| :: recvq[i].Span() in live && recvq[i].Span() !in multiset(Spans(recvp))
    ensures forall i | 0 <= i < |sendq| :: sendq[i].Span() in live && sendq[i].Span() !in multiset(Spans(recvp))
    ensures forall e <- Beside(live, HeldIn(sendq, recvq, recvp)) :: e !in multiset(Spans(recvp))
  {
    forall e | e in multiset(Spans(recvp))
      ensures live[e] == 1
    {
      var i :| 0 <= i < |recvp| && Spans(recvp)[i] == e;
    }
    assert forall i | 0 <= i < |recvq| :: Spans(recvq)[i] in multiset(Spans(recvq));
    assert forall i | 0 <= i < |sendq| :: Spans(sendq)[i] in multiset(Spans(sendq));
  }

  lemma MoveFlat(to: seq<Window>, from: seq<Window>)
    requires AllInside(to) && AllInside(from) && from != []
    ensures AllInside(to + [from[0]]) && AllInside(from[1..])
    ensures Flat(to + [from[0]]) == Flat(to) + Flat(from)[..from[0].count]
    ensures Flat(from[1..]) == Flat(from)[from[0].count..] && from[0].count <= Total(from)
  {
    FlatSnoc(to, from[0]);
  }

  lemma FrontOwned(pool: MemoryPool, c: Client)
    requires c.pool == pool && c.Core() && c.recvp != []
    ensures c.recvp[0].chunk in pool.owned
  {
    HeadSpan(c.recvp);
    assert c.recvp[0].Span() in c.Held();
  }

  lemma CutSpans(other: seq<Window>, to: seq<Window>, from: seq<Window>, a: Window, b: Window)
    requires from != []
    ensures HeldIn(other, to + [a], [b] + from[1..])
         == HeldIn(other, to, from) - multiset{from[0].Span()} + multiset{a.Span()} + multiset{b.Span()}
    ensures from[0].Span() in HeldIn(other, to, from) && multiset(Spans(from)) <= HeldIn(other, to, from)
  {
    HeadSpan(from);
    HeadSpan([b] + from[1..]);
    assert ([b] + from[1..])[1..] == from[1..];
    SpansCat(to, [a]);
    assert Spans([a]) == [a.Span()];
  }

  lemma CutFrontWindow(other: seq<Window>, to: seq<Window>, from: seq<Window>, live: multiset<Extent>, k: nat)
    requires Rewound(to) && Writable(from, live) && from != [] && 0 < k < from[0].count
    requires Within(HeldIn(other, to, from), live)
    ensures var ck := from[0]; var a, b := ck.ShrinkCount(ck.count - k), ck.ForwardOffset(k);
      && Rewound(to + [a])
      && Writable([b] + from[1..], live - multiset{ck.Span()} + multiset{a.Span()} + multiset{b.Span()})
  {
    hide Exclusive, Overlap, Spans, Part;
    var ck := from[0];
    var a, b := ck.ShrinkCount(ck.count - k), ck.ForwardOffset(k);
    HeadDiffers(from, live);
    PartsAreApart(ck, k);
    CutExclusive(ck.Span(), live, a.Span(), b.Span());
    TailStaysWritable(from, live, a.Span(), b.Span());
    WritableCons(b, from[1..], live - multiset{ck.Span()} + multiset{a.Span()} + multiset{b.Span()});
  }

  lemma TailStaysWritable(from: seq<Window>, live: multiset<Extent>, a: Extent, b: Extent)
    requires from != [] && Writable(from, live) && multiset(Spans(from)) <= live
    requires Part(a, from[0].Span()) && Part(b, from[0].Span())
    ensures Writable(from[1..], live - multiset{from[0].Span()} + multiset{a} + multiset{b})
  {
    hide Exclusive, Overlap, Spans, Part;
    var e, rest := from[0].Span(), from[1..];
    HeadDiffers(from, live);
    forall i | 0 <= i < |rest|
      ensures Exclusive(rest[i].Span(), live - multiset{e} + multiset{a} + multiset{b})
    {
      assert rest[i] == from[i + 1];
      OthersStayExclusive(rest[i].Span(), e, live, a, b);
    }
  }

  lemma WritableCons(w: Window, ws: seq<Window>, live: multiset<Extent>)
    requires Writable(ws, live) && w.Inside() && w.count > 0 && w.pos == 0 && Exclusive(w.Span(), live)
    ensures Writable([w] + ws, live)
  {
    hide Exclusive;
    assert forall i | 0 < i < |[w] + ws| :: ([w] + ws)[i] == ws[i - 1];
  }

  lemma PartsAreApart(w: Window, k: nat)
    requires 0 < k < w.count
    ensures var a, b := w.ShrinkCount(w.count - k).Span(), w.ForwardOffset(k).Span();
      Part(a, w.Span()) && Part(b, w.Span()) && !Overlap(a, b)
  {
  }

  /** Replacing a held window by its parts changes nothing for anybody else. */
  lemma CutHeld(live: multiset<Extent>, held: multiset<Extent>, e: Extent, a: Extent, b: Extent)
    requires Within(held, live) && e in held
    ensures var h, l := held - multiset{e} + multiset{a} + multiset{b}, live - multiset{e} + multiset{a} + multiset{b};
      Within(h, l) && Beside(l, h) == Beside(live, held)
    ensures e in live
  {
  }

  lemma SliceStep(room: seq<byte>, done: nat, k: nat)
    requires done + k <= |room|
    ensures room[..done] + room[done..][..k] == room[..done + k] && room[done..][k..] == room[done + k..]
  {
  }

  lemma CutFlat(to: seq<Window>, from: seq<Window>, k: nat)
    requires AllInside(to) && AllInside(from) && from != [] && 0 < k < from[0].count
    ensures var ck := from[0]; var a, b := ck.ShrinkCount(ck.count - k), ck.ForwardOffset(k);
      && AllInside(to + [a]) && AllInside([b] + from[1..])
      && Flat(to + [a]) == Flat(to) + Flat(from)[..k]
      && Flat([b] + from[1..]) == Flat(from)[k..] && Total([b] + from[1..]) == Total(from) - k
  {
    hide Flat, Total, Content;
    var ck := from[0];
    var a, b := ck.ShrinkCount(ck.count - k), ck.ForwardOffset(k);
    CutWindow(ck, k);
    FlatSnoc(to, a);
    FlatStep(from);
    FlatOne(b);
    FlatCat([b], from[1..]);
    CutOff(Content(ck.Span()), Flat(from[1..]), k);
  }

  lemma CutOff(a: seq<byte>, b: seq<byte>, k: nat)
    requires k <= |a|
    ensures (a + b)[..k] == a[..k] && (a + b)[k..] == a[k..] + b
  {
  }

  lemma HeldMore(sendq: seq<Window>, recvq: seq<Window>, recvp: seq<Window>, more: seq<Window>)
    ensures HeldIn(sendq, recvq, recvp + more) == HeldIn(sendq, recvq, recvp) + multiset(Spans(more))
  {
    SpansCat(recvp, more);
  }

  lemma MoveSpans(other: seq<Window>, to: seq<Window>, from: seq<Window>)
    requires from != []
    ensures HeldIn(other, to + [from[0]], from[1..]) == HeldIn(other, to, from)
    ensures from[0].Span() in HeldIn(other, to, from)
  {
    HeadSpan(from);
    SpansCat(to, [from[0]]);
    assert Spans([from[0]]) == [from[0].Span()];
  }

  lemma MoveWindow(to: seq<Window>, from: seq<Window>, live: multiset<Extent>)
    requires Rewound(to) && Writable(from, live) && from != []
    ensures Rewound(to + [from[0]]) && Writable(from[1..], live)
  {
  }

  lemma FrontIsOwned(pool: MemoryPool, e: Extent)
    requires pool.Valid() && e in pool.live
    ensures e.chunk in pool.owned && e.offset + e.count <= pool.chunksize && e.chunk in pool.InUse()
    ensures e.chunk.data.Length == pool.chunksize
  {
  }

  ghost predicate Within(held: multiset<Extent>, live: multiset<Extent>) {
    held <= live
  }

  /** The windows that live beside the held ones. */
  ghost function Beside(live: multiset<Extent>, held: multiset<Extent>): multiset<Extent> {
    live - held
  }

  ghost function HeldIn(sendq: seq<Window>, recvq: seq<Window>, recvp: seq<Window>): multiset<Extent> {
    multiset(Spans(sendq)) + multiset(Spans(recvq)) + multiset(Spans(recvp))
  }

  /** Windows whose cursors are at their start. */
  ghost predicate Rewound(ws: seq<Window>)
    ensures Rewound(ws) ==> AllInside(ws)
  {
    AllInside(ws) && forall i | 0 <= i < |ws| :: ws[i].pos == 0
  }

  ghost predicate Writable(ws: seq<Window>, live: multiset<Extent>)
    ensures Writable(ws, live) ==> AllInside(ws)
  {
    Rewound(ws) && forall i | 0 <= i < |ws| :: Exclusive(ws[i].Span(), live)
  }

  lemma WritableMore(ws: seq<Window>, more: seq<Window>, live: multiset<Extent>, size: nat)
    requires Writable(ws, live) && WholeChunks(more, live, size) && size > 0
    ensures Writable(ws + more, live + multiset(Spans(more)))
  {
    var after := live + multiset(Spans(more));
    WholeChunksAreExclusive(more, live, size);
    forall i | 0 <= i < |ws + more|
      ensures Exclusive((ws + more)[i].Span(), after)
    {
      if i < |ws| {
        ExclusiveWithOthers(ws[i].Span(), live, more, size);
      }
    }
  }
}
