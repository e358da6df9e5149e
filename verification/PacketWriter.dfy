/** Packets under construction: byte buffers over lists of windows, written with a cursor that may jump. */
module PacketWriter {
  import opened Bytes
  import opened Memory
  import opened Windows
  import opened Cursor

  /** A position of a packet under construction; a skipped one holds whatever the chunk held before. */
  datatype Cell = Unwritten | Written(b: byte)

  function CellsOf(s: seq<byte>): seq<Cell> {
    seq(|s|, i requires 0 <= i < |s| => Written(s[i]))
  }

  /** Writing `src` at `pos`. */
  function Put(cells: seq<Cell>, pos: nat, src: seq<byte>): seq<Cell>
    requires pos <= |cells|
  {
    cells[..pos] + CellsOf(src) + if pos + |src| <= |cells| then cells[pos + |src|..] else []
  }

  /** Moving the cursor beyond the end makes the packet longer without writing. */
  function Extend(cells: seq<Cell>, pos: nat): seq<Cell> {
    if pos <= |cells| then cells else cells + seq(pos - |cells|, _ => Unwritten)
  }

  /** Every written position holds the byte written last. */
  ghost predicate Agrees(bytes: seq<byte>, cells: seq<Cell>) {
    |cells| <= |bytes| && forall i | 0 <= i < |cells| :: cells[i].Written? ==> bytes[i] == cells[i].b
  }

  lemma PutAgrees(bytes: seq<byte>, cells: seq<Cell>, pos: nat, src: seq<byte>)
    requires Agrees(bytes, cells) && pos <= |cells| && pos + |src| <= |bytes|
    ensures Agrees(bytes[..pos] + src + bytes[pos + |src|..], Put(cells, pos, src))
  {
  }

  lemma ExtendAgrees(bytes: seq<byte>, cells: seq<Cell>, pos: nat)
    requires Agrees(bytes, cells) && pos <= |bytes|
    ensures Agrees(bytes, Extend(cells, pos))
  {
  }

  lemma AllWritten(bytes: seq<byte>, s: seq<byte>)
    requires Agrees(bytes, CellsOf(s))
    ensures |s| <= |bytes| && bytes[..|s|] == s
  {
    forall i | 0 <= i < |s|
      ensures bytes[i] == s[i]
    {
      assert CellsOf(s)[i] == Written(s[i]);
    }
  }

  class PacketOut {
    const pool: MemoryPool
    var data: seq<Window>
    var size: nat
    var capacity: nat
    var pos: nat
    var posY: nat
    ghost var cells: seq<Cell>

    /** The windows are live and nobody else sees their bytes; every written position holds its byte. */
    ghost predicate Valid()
      reads this, pool, pool.owned, set w | w in data :: w.chunk.data
    {
      && pool.Valid() && OwnedBy(data, pool.live)
      && CursorAt(data, pos, posY) && capacity == Total(data)
      && pos <= size <= capacity && size == |cells|
      && Agrees(Flat(data), cells)
    }

    /** Everybody else's windows. */
    ghost function Others(): multiset<Extent>
      reads this`data, pool
    {
      Without(pool.live, data)
    }

    constructor (approx: nat, pool: MemoryPool)
      requires pool.Valid()
      modifies pool, pool.owned
      ensures Valid() && fresh(this) && this.pool == pool
      ensures pos == 0 && cells == [] && capacity >= approx + 10
      ensures Others() == old(pool.live) && StillExclusive(Others(), old(pool.live), pool.live)
      ensures pool.owned >= old(pool.owned) && fresh(pool.owned - old(pool.owned))
      ensures forall c <- pool.owned - old(pool.owned) :: fresh(c.data)
    {
      hide MemoryPool.Consistent, StillExclusive, OwnedBy, CursorAt, Flat, Total, Agrees, Without, Spans;
      this.pool := pool;
      data, size, capacity, pos, posY, cells := [], 0, 0, 0, 0, [];
      new;
      NoWindows(pool.live);
      AquireMemory(approx);
    }

    /** Acquires whole chunks for at least `need + 10` more bytes. */
    method AquireMemory(need: nat)
      requires Valid()
      modifies this`data, this`capacity, pool, pool.owned
      ensures Valid() && capacity >= old(capacity) + need + 10
      ensures Others() == old(Others()) && StillExclusive(Others(), old(pool.live), pool.live)
      ensures forall e <- old(Others()) :: Content(e) == old(Content(e))
      ensures pool.owned >= old(pool.owned) && fresh(pool.owned - old(pool.owned))
      ensures forall c <- pool.owned - old(pool.owned) :: fresh(c.data)
    {
      hide MemoryPool.Consistent, OwnedBy, WholeChunks, Without, CursorAt, Spans, Flat, Agrees, StillExclusive, Total, Content, Exclusive;
      ghost var before := pool.live;
      PoolChunks(pool);
      OthersInside(pool, data);
      CursorInside(data, pos, posY);
      var n := pool.CalculateChunkCount(need + 10);
      var ws := pool.Aquire(n);
      WholeChunksTotal(ws, before, pool.chunksize);
      OwnMore(data, ws, before, pool.chunksize);
      CursorMore(data, pos, posY, ws);
      AgreesLonger(Flat(data), cells, Flat(ws));
      FlatCat(data, ws);
      data, capacity := data + ws, capacity + Total(ws);
    }

    /** Moves the cursor; the packet is at least that long afterwards. */
    method SkipTo(p: nat)
      requires Valid() && p <= capacity
      modifies this
      ensures Valid() && pos == p && cells == Extend(old(cells), p) && capacity == old(capacity)
      ensures Spans(data) == Spans(old(data)) && Others() == old(Others())
    {
      hide Flat, Spans, OwnedBy, MemoryPool.Consistent, Agrees, CursorAt, Total, Without, AllInside;
      CursorInside(data, pos, posY);
      var ws, y := SkipWindows(data, p);
      CursorInside(ws, p, y);
      TotalOfSpans(ws, data);
      FlatOfSpans(ws, data);
      OwnedBySpans(ws, data, pool.live);
      ExtendAgrees(Flat(data), cells, p);
      data, posY, pos, cells, size := ws, y, p, Extend(cells, p), if size < p then p else size;
    }

    /** Acquires memory until `count` more bytes fit. */
    method Reserve(count: nat)
      requires Valid()
      modifies this`data, this`capacity, pool, pool.owned
      ensures Valid() && pos + count <= capacity
      ensures Others() == old(Others()) && StillExclusive(Others(), old(pool.live), pool.live)
      ensures forall e <- old(Others()) :: Content(e) == old(Content(e))
      ensures pool.owned >= old(pool.owned) && fresh(pool.owned - old(pool.owned))
      ensures forall c <- pool.owned - old(pool.owned) :: fresh(c.data)
    {
      hide MemoryPool.Consistent, OwnedBy, Without, CursorAt, Spans, Flat, Agrees, Content;
      OthersInside(pool, data);
      while pos + count > capacity
        invariant Valid() && Others() == old(Others()) && StillExclusive(Others(), old(pool.live), pool.live)
        invariant forall e <- old(Others()) :: Content(e) == old(Content(e))
        invariant pool.owned >= old(pool.owned) && fresh(pool.owned - old(pool.owned))
        invariant forall c <- pool.owned - old(pool.owned) :: fresh(c.data)
        decreases pos + count - capacity
      {
        AquireMemory(count);
      }
    }

    /** The windows take `src`, for which there is room; their cursors after that. */
    method StoreBytes(src: seq<byte>) returns (ws: seq<Window>, y: nat)
      requires Valid() && pos + |src| <= capacity
      modifies pool.Arrays()
      ensures OwnedBy(ws, pool.live) && CursorAt(ws, pos + |src|, y) && capacity == Total(ws)
      ensures AllInside(ws) && Agrees(Flat(ws), Put(cells, pos, src)) && Spans(ws) == Spans(data)
      ensures forall e <- Others() :: Content(e) == old(Content(e))
    {
      hide MemoryPool.Consistent, CursorAt, Spans, Flat, Agrees, Content, Put, Exclusive, OwnedBy, Without, Total;
      CursorInside(data, pos, posY);
      OthersAreApart(pool, data);
      PutAgrees(Flat(data), cells, pos, src);
      ws, y := WriteWindows(data, posY, src, pos, pool.live);
      CursorInside(ws, pos + |src|, y);
      TotalOfSpans(ws, data);
      FlatOfSpans(ws, data);
      OwnedBySpans(ws, data, pool.live);
    }

    /** The cursor moves over `src`, which the windows `ws` hold already. */
    method MoveOver(src: seq<byte>, ws: seq<Window>, y: nat)
      requires pool.Valid() && OwnedBy(ws, pool.live) && CursorAt(ws, pos + |src|, y) && capacity == Total(ws)
      requires pos <= size == |cells| && AllInside(ws) && Agrees(Flat(ws), Put(cells, pos, src))
      requires pos + |src| <= capacity && size <= capacity && Without(pool.live, ws) == Others()
      modifies this
      ensures Valid() && pos == old(pos) + |src| && cells == Put(old(cells), old(pos), src)
      ensures Others() == old(Others())
    {
      hide MemoryPool.Consistent, CursorAt, Spans, Flat, Agrees, Content, Put, OwnedBy, Without, Total, Exclusive,
           MemoryPool.Arrays, MemoryPool.InUse;
      PutLength(cells, pos, src);
      var p := pos + |src|;
      data, posY, pos, cells, size := ws, y, p, Put(cells, pos, src), if size < p then p else size;
    }

    method Store(src: seq<byte>)
      requires Valid() && pos + |src| <= capacity
      modifies this, pool.Arrays()
      ensures Valid() && pos == old(pos) + |src| && cells == Put(old(cells), old(pos), src)
      ensures Others() == old(Others())
      ensures forall e <- Others() :: Content(e) == old(Content(e))
    {
      hide MemoryPool.Consistent, CursorAt, Spans, Flat, Agrees, Content, Put, OwnedBy, Without, Total, Exclusive,
           MemoryPool.Arrays, MemoryPool.InUse;
      OthersInside(pool, data);
      var ws, y := StoreBytes(src);
      SameOthers(pool.live, ws, data);
      MoveOver(src, ws, y);
    }

    /** Writes `src` at the cursor. */
    method PutByte(src: seq<byte>)
      requires Valid()
      modifies this, pool, pool.owned, pool.Arrays()
      ensures Valid() && pos == old(pos) + |src| && cells == Put(old(cells), old(pos), src)
      ensures Others() == old(Others()) && StillExclusive(Others(), old(pool.live), pool.live)
      ensures forall e <- old(Others()) :: Content(e) == old(Content(e))
      ensures pool.owned >= old(pool.owned) && fresh(pool.owned - old(pool.owned))
      ensures forall c <- pool.owned - old(pool.owned) :: fresh(c.data)
    {
      hide MemoryPool.Consistent, OwnedBy, Without, CursorAt, Spans, Flat, Agrees, StillExclusive, Content, Put, Exclusive;
      OthersInside(pool, data);
      Reserve(|src|);
      OthersInside(pool, data);
      Store(src);
    }

    /** One round of FetchData: a copy of window `i`, cut after `s` bytes. */
    method FetchOne(i: nat, s: nat, ghost before: multiset<Extent>) returns (part: Window)
      requires pool.Valid() && before <= pool.live && OwnedBy(data, before) && AllInside(data) && i < |data| && s > 0
      requires StillExclusive(Without(before, data), before, pool.live)
      modifies pool`live, pool.owned
      ensures pool.Valid() && pool.live == old(pool.live) + multiset{part.Span()}
      ensures StillExclusive(Without(before, data), before, pool.live)
      ensures part.chunk == data[i].chunk && part.Inside() && part.count == if s < data[i].count then s else data[i].count
      ensures Content(part.Span()) == old(Content(data[i].Span()))[..part.count]
    {
      hide MemoryPool.Consistent, Exclusive, OwnedBy, StillExclusive, Spans, Without;
      var ck := data[i];
      part := if s < ck.count then ck.ShrinkCount(ck.count - s) else ck;
      OwnWindow(pool, data, before, pool.live, i);
      PartKeepsExclusive(data, before, Without(before, data), pool.live, i, part.Span());
      CutWindow(ck, part.count);
      pool.Share(ck.Span(), part.Span());
    }

    /** Window `i` joins the fetched ones; `s` bytes were still to come. */
    method FetchInto(ret: seq<Window>, i: nat, s: nat, ghost before: multiset<Extent>, ghost all: seq<byte>)
      returns (more: seq<Window>, left: nat)
      requires pool.Valid() && pool.live == before + multiset(Spans(ret)) && OwnedBy(data, before)
      requires AllInside(data) && AllInside(ret) && i < |data| && 0 < s <= size <= |all|
      requires AllInside(data[i..]) && AllInside(data[i + 1..])
      requires Fetched(all, Flat(ret), Flat(data[i..]), size, s)
      requires StillExclusive(Without(before, data), before, pool.live)
      modifies pool`live, pool.owned
      ensures pool.Valid() && pool.live == before + multiset(Spans(more)) && AllInside(more)
      ensures left < s && Fetched(all, Flat(more), Flat(data[i + 1..]), size, left)
      ensures StillExclusive(Without(before, data), before, pool.live)
    {
      hide MemoryPool.Consistent, Fetched, Flat, Exclusive, OwnedBy, Total, Content, StillExclusive, Spans, Without;
      FlatStep(data[i..]);
      assert data[i..][0] == data[i] && data[i..][1..] == data[i + 1..];
      ghost var taken, first, rest := Flat(ret), Content(data[i].Span()), Flat(data[i + 1..]);
      var part := FetchOne(i, s, before);
      assert Flat(ret) == taken && Flat(data[i + 1..]) == rest;
      FetchRound(all, taken, first, rest, Content(part.Span()), size, s);
      AppendWindow(ret, part);
      PlusAssociates(before, multiset(Spans(ret)), part.Span());
      more := ret + [part];
      left := s - part.count;
    }

    /** FetchData: windows, of their own, on the packet's first `size` bytes. */
    method FetchData() returns (ret: seq<Window>)
      requires Valid()
      modifies pool`live, pool.owned
      ensures pool.Valid() && pool.live == old(pool.live) + multiset(Spans(ret))
      ensures AllInside(ret) && Flat(ret) == Flat(data)[..size]
      ensures StillExclusive(old(Others()), old(pool.live), pool.live)
    {
      hide MemoryPool.Consistent, Fetched, CursorAt, Flat, Agrees, Exclusive, OwnedBy, Total, Content, StillExclusive,
           Spans, Without;
      CursorInside(data, pos, posY);
      ghost var before, all := pool.live, Flat(data);
      NothingFetched(data, before, Others(), size);
      ret := [];
      var i, s := 0, size;
      while i < |data| && s > 0
        invariant i <= |data| && 0 <= s <= size <= |all|
        invariant pool.Valid() && pool.live == before + multiset(Spans(ret))
        invariant AllInside(ret) && Fetched(all, Flat(ret), Flat(data[i..]), size, s)
        invariant StillExclusive(Without(before, data), before, pool.live)
      {
        ret, s := FetchInto(ret, i, s, before, all);
        i := i + 1;
      }
      assert i == |data| ==> data[i..] == [];
      FlatStep(data[i..]);
      AllFetched(all, Flat(ret), Flat(data[i..]), size, s);
    }
  }

  lemma PlusAssociates(a: multiset<Extent>, b: multiset<Extent>, e: Extent)
    ensures a + b + multiset{e} == a + (b + multiset{e})
  {
  }

  /** All but `left` of the first `size` bytes have been taken, and `rest` is what follows. */
  ghost predicate Fetched(all: seq<byte>, taken: seq<byte>, rest: seq<byte>, size: nat, left: nat) {
    left <= size <= |all| && taken == all[..size - left] && (left > 0 ==> all == taken + rest)
  }

  lemma AllFetched(all: seq<byte>, taken: seq<byte>, rest: seq<byte>, size: nat, left: nat)
    requires Fetched(all, taken, rest, size, left) && (left > 0 ==> rest == [])
    ensures left == 0 && taken == all[..size]
  {
  }

  lemma NothingFetched(ws: seq<Window>, live: multiset<Extent>, others: multiset<Extent>, size: nat)
    requires AllInside(ws) && size <= Total(ws)
    ensures live == live + multiset(Spans([])) && Fetched(Flat(ws), Flat([]), Flat(ws[0..]), size, size)
    ensures StillExclusive(others, live, live) && |Flat(ws)| == Total(ws)
  {
    assert Spans([]) == [] && ws[0..] == ws;
  }

  /** A packet's window while further windows are live. */
  lemma OwnWindow(pool: MemoryPool, ws: seq<Window>, before: multiset<Extent>, live: multiset<Extent>, i: nat)
    requires pool.Valid() && pool.live == live && before <= live && OwnedBy(ws, before) && i < |ws|
    ensures ws[i].Span() in live && ws[i].chunk in pool.owned && ws[i].offset + ws[i].count <= pool.chunksize
  {
    assert Spans(ws)[i] in multiset(Spans(ws));
  }

  lemma PartKeepsExclusive(ws: seq<Window>, before: multiset<Extent>, others: multiset<Extent>, live: multiset<Extent>,
                           i: nat, part: Extent)
    requires OwnedBy(ws, before) && i < |ws| && others == Without(before, ws) && StillExclusive(others, before, live)
    requires ws[i].Span() in live && ws[i].count > 0 && Part(part, ws[i].Span())
    ensures StillExclusive(others, before, live + multiset{part})
  {
    var w := ws[i].Span();
    var es := Spans(ws);
    assert es[i] in multiset(es) && before[w] == 1;
    assert w !in others;
    forall e | e in others && Exclusive(e, before)
      ensures Exclusive(e, live + multiset{part})
    {
      assert e != w && Exclusive(e, live) && !Overlap(e, w);
      assert e != part;
    }
  }

  lemma AppendWindow(ws: seq<Window>, w: Window)
    requires AllInside(ws) && w.Inside() && w.count > 0
    ensures AllInside(ws + [w]) && Flat(ws + [w]) == Flat(ws) + Content(w.Span())
    ensures multiset(Spans(ws + [w])) == multiset(Spans(ws)) + multiset{w.Span()}
  {
    FlatSnoc(ws, w);
    SpansCat(ws, [w]);
    assert Spans([w]) == [w.Span()];
  }

  lemma FetchRound(all: seq<byte>, taken: seq<byte>, first: seq<byte>, rest: seq<byte>, part: seq<byte>, size: nat, s: nat)
    requires 0 < s && Fetched(all, taken, first + rest, size, s)
    requires part == if s < |first| then first[..s] else first
    ensures |part| <= s && Fetched(all, taken + part, rest, size, s - |part|)
  {
  }

  lemma PutLength(cells: seq<Cell>, pos: nat, src: seq<byte>)
    requires pos <= |cells|
    ensures |Put(cells, pos, src)| == if pos + |src| <= |cells| then |cells| else pos + |src|
  {
  }

  lemma PoolChunks(pool: MemoryPool)
    requires pool.Valid()
    ensures pool.chunksize > 0
  {
  }

  /** The other windows lie inside their chunks. */
  lemma OthersInside(pool: MemoryPool, ws: seq<Window>)
    requires pool.Valid()
    ensures forall e <- Without(pool.live, ws) :: e in pool.live && e.offset + e.count <= e.chunk.data.Length
  {
  }

  lemma OthersAreApart(pool: MemoryPool, ws: seq<Window>)
    requires pool.Valid() && OwnedBy(ws, pool.live)
    ensures Apart(pool.live)
    ensures forall w <- ws :: w.chunk.data in pool.Arrays()
    ensures forall e <- Without(pool.live, ws) :: e in pool.live && e !in multiset(Spans(ws))
    ensures forall e <- Without(pool.live, ws) :: e.offset + e.count <= e.chunk.data.Length
    ensures multiset(Spans(ws)) <= pool.live && forall i | 0 <= i < |ws| :: Exclusive(ws[i].Span(), pool.live)
  {
    var es := Spans(ws);
    forall i | 0 <= i < |ws|
      ensures ws[i].chunk.data in pool.Arrays() && es[i] in pool.live
    {
      assert es[i] in multiset(es);
    }
    forall e | e in multiset(es)
      ensures pool.live[e] == 1
    {
      var i :| 0 <= i < |es| && es[i] == e;
    }
  }

  lemma OwnedBySpans(a: seq<Window>, b: seq<Window>, live: multiset<Extent>)
    requires OwnedBy(b, live) && Spans(a) == Spans(b)
    ensures OwnedBy(a, live) && Without(live, a) == Without(live, b)
  {
    ExclusiveSpans(a, b, live);
  }

  lemma NoWindows(live: multiset<Extent>)
    ensures OwnedBy([], live) && CursorAt([], 0, 0) && Total([]) == 0 && Agrees(Flat([]), [])
    ensures Without(live, []) == live
  {
    assert Spans([]) == [];
    var none: seq<Window> := [];
    assert none[..0] == none;
  }

  lemma SameOthers(live: multiset<Extent>, a: seq<Window>, b: seq<Window>)
    requires Spans(a) == Spans(b)
    ensures Without(live, a) == Without(live, b)
  {
  }

  lemma AgreesLonger(bytes: seq<byte>, cells: seq<Cell>, more: seq<byte>)
    requires Agrees(bytes, cells)
    ensures Agrees(bytes + more, cells)
  {
  }

  /** The windows that live beside `ws`. */
  ghost function Without(live: multiset<Extent>, ws: seq<Window>): multiset<Extent> {
    live - multiset(Spans(ws))
  }

  ghost predicate StillExclusive(others: multiset<Extent>, before: multiset<Extent>, after: multiset<Extent>) {
    forall e <- others :: Exclusive(e, before) ==> Exclusive(e, after)
  }

  ghost predicate OwnedBy(ws: seq<Window>, live: multiset<Extent>) {
    multiset(Spans(ws)) <= live && forall i | 0 <= i < |ws| :: Exclusive(ws[i].Span(), live)
  }

  lemma OwnMore(ws: seq<Window>, more: seq<Window>, live: multiset<Extent>, size: nat)
    requires OwnedBy(ws, live) && WholeChunks(more, live, size)
    ensures OwnedBy(ws + more, live + multiset(Spans(more)))
    ensures Without(live + multiset(Spans(more)), ws + more) == Without(live, ws)
    ensures StillExclusive(Without(live, ws), live, live + multiset(Spans(more)))
  {
    SpansCat(ws, more);
    forall e | e in live && Exclusive(e, live)
      ensures Exclusive(e, live + multiset(Spans(more)))
    {
      ExclusiveWithOthers(e, live, more, size);
    }
    WholeChunksAreExclusive(more, live, size);
    forall i | 0 <= i < |ws + more|
      ensures Exclusive((ws + more)[i].Span(), live + multiset(Spans(more)))
    {
      if i < |ws| {
        ExclusiveWithOthers(ws[i].Span(), live, more, size);
      }
    }
  }

  lemma {:induction false} WholeChunksTotal(ws: seq<Window>, before: multiset<Extent>, size: nat)
    requires WholeChunks(ws, before, size) && size > 0
    ensures AllInside(ws) && (forall i | 0 <= i < |ws| :: ws[i].pos == 0) && Total(ws) == |ws| * size
    decreases |ws|
  {
    if ws != [] {
      assert WholeChunks(ws[1..], before, size);
      WholeChunksTotal(ws[1..], before, size);
      assert |ws| * size == (|ws| - 1) * size + size;
    }
  }

  lemma CursorMore(ws: seq<Window>, pos: nat, y: nat, more: seq<Window>)
    requires CursorAt(ws, pos, y) && AllInside(more) && forall i | 0 <= i < |more| :: more[i].pos == 0
    ensures CursorAt(ws + more, pos, y) && Total(ws + more) == Total(ws) + Total(more)
  {
    FlatCat(ws, more);
    assert (ws + more)[..y] == ws[..y];
  }
}
