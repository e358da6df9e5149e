/**
 Reference-counted memory: a pool of fixed-size chunks and windows onto them.

 A `Window` is a value that is copied between containers, as the program copies its smart pointers; every copy
 holds one reference. The pool's ghost field `live` records the extent of every window that exists.
 */
module Memory {
  import opened Bytes

  class MemoryChunk {
    const data: array<byte>
    var ref: nat

    constructor (length: nat)
      ensures fresh(data) && data.Length == length && ref == 0
    {
      data := new byte[length];
      ref := 0;
    }
  }

  /** A mapping of `count` bytes of a chunk, with a read and write cursor. */
  datatype Window = Window(chunk: MemoryChunk, offset: nat, count: nat, pos: nat) {
    /** Gives up the last `shrink` bytes. */
    function ShrinkCount(shrink: nat): Window
      requires shrink <= count
    {
      this.(count := count - shrink, pos := 0)
    }

    /** Gives up the first `forward` bytes. */
    function ForwardOffset(forward: nat): Window
      requires forward <= count
    {
      this.(offset := offset + forward, count := count - forward, pos := 0)
    }

    function Span(): Extent {
      Extent(chunk, offset, count)
    }

    ghost predicate Inside() {
      pos <= count && offset + count <= chunk.data.Length
    }
  }

  datatype Extent = Extent(chunk: MemoryChunk, offset: nat, count: nat)

  ghost function Content(e: Extent): (s: seq<byte>)
    requires e.offset + e.count <= e.chunk.data.Length
    reads e.chunk.data
    ensures |s| == e.count
  {
    e.chunk.data[e.offset..e.offset + e.count]
  }

  ghost predicate Overlap(a: Extent, b: Extent) {
    a.chunk == b.chunk && a.offset < b.offset + b.count && b.offset < a.offset + a.count
  }

  /** How many of the windows map the chunk `c`. */
  ghost function Uses(live: multiset<Extent>, c: MemoryChunk): nat
    decreases |live|
  {
    if live == multiset{} then 0
    else
      var e :| e in live;
      (if e.chunk == c then 1 else 0) + Uses(live - multiset{e}, c)
  }

  lemma {:induction false} UsesPlus(live: multiset<Extent>, x: Extent, c: MemoryChunk)
    ensures Uses(live + multiset{x}, c) == Uses(live, c) + if x.chunk == c then 1 else 0
    decreases |live|
  {
    var more := live + multiset{x};
    var e :| e in more && Uses(more, c) == (if e.chunk == c then 1 else 0) + Uses(more - multiset{e}, c);
    if e == x {
      assert more - multiset{e} == live;
    } else {
      var less := live - multiset{e};
      assert more - multiset{e} == less + multiset{x};
      UsesPlus(less, x, c);
      assert live == less + multiset{e};
      UsesPlus(less, e, c);
    }
  }

  lemma UsesMinus(live: multiset<Extent>, x: Extent, c: MemoryChunk)
    requires x in live
    ensures Uses(live, c) == Uses(live - multiset{x}, c) + if x.chunk == c then 1 else 0
  {
    assert live == live - multiset{x} + multiset{x};
    UsesPlus(live - multiset{x}, x, c);
  }

  lemma {:induction false} UsesPositive(live: multiset<Extent>, c: MemoryChunk)
    ensures Uses(live, c) > 0 <==> exists e :: e in live && e.chunk == c
    decreases |live|
  {
    if live != multiset{} {
      var e :| e in live && Uses(live, c) == (if e.chunk == c then 1 else 0) + Uses(live - multiset{e}, c);
      UsesPositive(live - multiset{e}, c);
      if f :| f in live && f.chunk == c {
        assert f == e || f in live - multiset{e};
      }
    }
  }

  function Spans(ws: seq<Window>): (es: seq<Extent>)
    ensures |es| == |ws|
    ensures forall i | 0 <= i < |ws| :: es[i] == ws[i].Span()
  {
    seq(|ws|, i requires 0 <= i < |ws| => ws[i].Span())
  }

  lemma SpansCat(a: seq<Window>, b: seq<Window>)
    ensures Spans(a + b) == Spans(a) + Spans(b)
    ensures multiset(Spans(a + b)) == multiset(Spans(a)) + multiset(Spans(b))
  {
    assert Spans(a + b) == Spans(a) + Spans(b);
  }

  /** The window `e` is the only one that sees its bytes. */
  ghost predicate Exclusive(e: Extent, live: multiset<Extent>) {
    live[e] == 1 && forall f <- live :: f != e ==> !Overlap(e, f)
  }

  class MemoryPool {
    const chunksize: nat
    const poolsize: nat
    var chunks: seq<MemoryChunk>
    ghost var live: multiset<Extent>
    ghost var owned: set<MemoryChunk>

    /** Every chunk counts its windows; the chunks without one, `loose` aside, are exactly the pooled ones. */
    ghost predicate Consistent(loose: set<MemoryChunk>)
      reads this, owned
      ensures Consistent(loose) ==> chunksize > 0
    {
      && chunksize > 0
      && (forall c <- owned :: c.data.Length == chunksize && c.ref == Uses(live, c))
      && (forall c <- owned, d <- owned :: c != d ==> c.data != d.data)
      && (forall e <- live :: e.chunk in owned && e.offset + e.count <= chunksize)
      && (forall i, j | 0 <= i < j < |chunks| :: chunks[i] != chunks[j])
      && |chunks| <= poolsize
      && (forall c <- owned - loose :: c in chunks <==> c.ref == 0)
      && (forall c <- loose :: c !in chunks)
      && (forall c <- chunks :: c in owned)
    }

    ghost predicate Valid()
      reads this, owned
    {
      Consistent({})
    }

    ghost function Arrays(): set<array<byte>>
      reads this
    {
      set c | c in owned :: c.data
    }

    constructor (chunksize: nat, poolsize: nat)
      requires chunksize > 0
      ensures Valid() && this.chunksize == chunksize && this.poolsize == poolsize
      ensures live == multiset{} && owned == {} && chunks == []
    {
      this.chunksize := chunksize;
      this.poolsize := poolsize;
      chunks := [];
      live := multiset{};
      owned := {};
    }

    function CalculateChunkCount(bytes: nat): (n: nat)
      requires chunksize > 0
      ensures n * chunksize >= bytes
      ensures n > 0 ==> (n - 1) * chunksize < bytes
    {
      var r := bytes / chunksize;
      assert bytes == r * chunksize + bytes % chunksize;
      if bytes % chunksize > 0 then r + 1 else r
    }

    /** A chunk without windows: pooled if there is one, new otherwise. */
    method TakeChunk() returns (chk: MemoryChunk)
      requires Valid()
      modifies this
      ensures Consistent({chk}) && chk in owned && chk.ref == 0 && live == old(live)
      ensures owned >= old(owned) && fresh(owned - old(owned))
      ensures forall c <- owned - old(owned) :: fresh(c.data)
      ensures old(chunks) != [] ==> chk == old(chunks)[0] && chunks == old(chunks)[1..] && owned == old(owned)
      ensures old(chunks) == [] ==> fresh(chk) && chunks == []
    {
      hide Uses;
      if chunks != [] {
        chk := chunks[0];
        chunks := chunks[1..];
      } else {
        chk := new MemoryChunk(chunksize);
        NotUsed(live, chk);
        owned := owned + {chk};
      }
    }

    /** RetainChunk: one more window, `e`, on its chunk. */
    method Retain(e: Extent)
      requires Consistent({e.chunk} - InUse()) && e.chunk in owned && e.offset + e.count <= chunksize
      modifies this`live, e.chunk
      ensures Valid() && live == old(live) + multiset{e}
    {
      hide Uses;
      var chk := e.chunk;
      forall c | c in owned
        ensures Uses(live + multiset{e}, c) == Uses(live, c) + if c == chk then 1 else 0
      {
        UsesPlus(live, e, c);
      }
      assert chk in chunks ==> chk.ref == 0 by {
        UsesPositive(live, chk);
      }
      UsesPositive(live, chk);
      chk.ref := chk.ref + 1;
      live := live + multiset{e};
    }

    /** The chunks that some window maps. */
    ghost function InUse(): set<MemoryChunk>
      reads this
    {
      set e | e in live :: e.chunk
    }

    /** Copying a window. */
    method Copy(e: Extent)
      requires Valid() && e in live
      modifies this`live, e.chunk
      ensures Valid() && live == old(live) + multiset{e}
    {
      assert {e.chunk} - InUse() == {};
      Retain(e);
    }

    /** A copy of the window `e` is made and becomes `a`, a window on the same chunk. */
    method Share(e: Extent, a: Extent)
      requires Valid() && e in live && a.chunk == e.chunk && a.offset + a.count <= chunksize
      modifies this`live, e.chunk
      ensures Valid() && live == old(live) + multiset{a}
    {
      hide Consistent;
      ghost var before := live;
      Copy(e);
      Reshape(e, a);
      assert before + multiset{e} - multiset{e} == before;
    }

    method DropReference(e: Extent)
      requires Valid() && e in live
      modifies this`live, e.chunk
      ensures live == old(live) - multiset{e}
      ensures Consistent(if e.chunk.ref == 0 then {e.chunk} else {}) && e.chunk in owned
    {
      hide Uses;
      var chk := e.chunk;
      forall c | c in owned
        ensures Uses(live, c) == Uses(live - multiset{e}, c) + if c == chk then 1 else 0
      {
        UsesMinus(live, e, c);
      }
      chk.ref := chk.ref - 1;
      live := live - multiset{e};
    }

    /** Gives back a chunk without windows: to the pool, or, when that is full, to the system. */
    method Recycle(chk: MemoryChunk)
      requires Consistent({chk}) && chk in owned && chk.ref == 0
      modifies this`chunks, this`owned
      ensures Valid()
      ensures if |old(chunks)| >= poolsize then chunks == old(chunks) && owned == old(owned) - {chk}
              else chunks == old(chunks) + [chk] && owned == old(owned)
    {
      hide Uses;
      if |chunks| >= poolsize {
        UsesPositive(live, chk);
        owned := owned - {chk};
      } else {
        chunks := chunks + [chk];
      }
    }

    /** ReleaseChunk: the window `e` ends. With the last window the chunk goes back to the pool, or is deleted
        when the pool is full. */
    method Release(e: Extent)
      requires Valid() && e in live
      modifies this, e.chunk
      ensures Valid() && live == old(live) - multiset{e}
      ensures var last := Uses(live, e.chunk) == 0;
        && owned == (if last && |old(chunks)| >= poolsize then old(owned) - {e.chunk} else old(owned))
        && chunks == (if last && |old(chunks)| < poolsize then old(chunks) + [e.chunk] else old(chunks))
      ensures e.chunk in InUse() ==> owned == old(owned) && chunks == old(chunks)
    {
      hide Uses;
      DropReference(e);
      UsesPositive(live, e.chunk);
      if e.chunk.ref == 0 {
        Recycle(e.chunk);
      }
    }

    /** A window is copied into another container and then removed from its first one. */
    method PassOn(e: Extent)
      requires Valid() && e in live
      modifies this, e.chunk
      ensures Valid() && live == old(live) && owned == old(owned) && chunks == old(chunks)
    {
      hide Consistent;
      ghost var before := live;
      Copy(e);
      Release(e);
      assert live == before && e in live;
    }

    /** A copy of the window becomes `a`, the window itself becomes `b`. */
    method Cut(e: Extent, a: Extent, b: Extent)
      requires Valid() && e in live && a.chunk == b.chunk == e.chunk
      requires a.offset + a.count <= chunksize && b.offset + b.count <= chunksize
      modifies this`live, e.chunk
      ensures Valid() && live == old(live) - multiset{e} + multiset{a} + multiset{b}
    {
      hide Consistent;
      ghost var before := live;
      Copy(e);
      Reshape(e, a);
      TwoForOne(before, e, a, b);
      Reshape(e, b);
    }

    /** A window is replaced by another one on the same chunk: its offset or its count changed. */
    ghost method Reshape(e: Extent, f: Extent)
      requires Valid() && e in live && f.chunk == e.chunk && f.offset + f.count <= chunksize
      modifies this`live
      ensures Valid() && live == old(live) - multiset{e} + multiset{f}
    {
      hide Uses;
      forall c | c in owned
        ensures Uses(live - multiset{e} + multiset{f}, c) == Uses(live, c)
      {
        UsesMinus(live, e, c);
        UsesPlus(live - multiset{e}, f, c);
      }
      live := live - multiset{e} + multiset{f};
    }

    /** A window on a whole chunk that no other window maps. */
    method AquireOne() returns (w: Window)
      requires Valid()
      modifies this, owned
      ensures Valid() && owned >= old(owned) && fresh(owned - old(owned))
      ensures forall c <- owned - old(owned) :: fresh(c.data)
      ensures w == Window(w.chunk, 0, chunksize, 0) && w.chunk in owned && w.chunk.data.Length == chunksize
      ensures live == old(live) + multiset{w.Span()}
      ensures forall e <- old(live) :: e.chunk != w.chunk
    {
      hide Uses;
      var chk := TakeChunk();
      UsesPositive(live, chk);
      w := Window(chk, 0, chunksize, 0);
      Retain(w.Span());
    }

    /** `n` windows, each on a whole chunk of its own. */
    method Aquire(n: nat) returns (ws: seq<Window>)
      requires Valid()
      modifies this, owned
      ensures Valid() && owned >= old(owned) && fresh(owned - old(owned))
      ensures forall c <- owned - old(owned) :: fresh(c.data)
      ensures |ws| == n && live == old(live) + multiset(Spans(ws))
      ensures WholeChunks(ws, old(live), chunksize)
    {
      hide Uses, Consistent, WholeChunks;
      ws := [];
      WholeChunksNone(live, chunksize);
      while |ws| < n
        invariant Valid() && owned >= old(owned) && fresh(owned - old(owned))
        invariant forall c <- owned - old(owned) :: fresh(c.data)
        invariant |ws| <= n && live == old(live) + multiset(Spans(ws))
        invariant WholeChunks(ws, old(live), chunksize)
      {
        var w := AquireOne();
        WholeChunksSnoc(ws, w, old(live), chunksize);
        SpansCat(ws, [w]);
        assert Spans([w]) == [w.Span()];
        ws := ws + [w];
      }
    }
  }

  lemma TwoForOne(live: multiset<Extent>, e: Extent, a: Extent, b: Extent)
    requires e in live
    ensures e in live + multiset{e} - multiset{e} + multiset{a}
    ensures live + multiset{e} - multiset{e} + multiset{a} - multiset{e} + multiset{b}
         == live - multiset{e} + multiset{a} + multiset{b}
  {
  }

  /** Windows on whole chunks: one each, and none of the extents `before` maps any of them. */
  ghost predicate WholeChunks(ws: seq<Window>, before: multiset<Extent>, size: nat) {
    && (forall i | 0 <= i < |ws| :: ws[i] == Window(ws[i].chunk, 0, size, 0) && ws[i].chunk.data.Length == size)
    && (forall i, j | 0 <= i < j < |ws| :: ws[i].chunk != ws[j].chunk)
    && (forall i, e | 0 <= i < |ws| && e in before :: e.chunk != ws[i].chunk)
  }

  lemma WholeChunksNone(before: multiset<Extent>, size: nat)
    ensures WholeChunks([], before, size)
  {
  }

  lemma WholeChunksSnoc(ws: seq<Window>, w: Window, before: multiset<Extent>, size: nat)
    requires WholeChunks(ws, before, size) && w == Window(w.chunk, 0, size, 0) && w.chunk.data.Length == size
    requires forall e <- before + multiset(Spans(ws)) :: e.chunk != w.chunk
    ensures WholeChunks(ws + [w], before, size)
  {
    forall i | 0 <= i < |ws|
      ensures ws[i].chunk != w.chunk
    {
      assert Spans(ws)[i] in multiset(Spans(ws));
    }
  }

  lemma NotUsed(live: multiset<Extent>, c: MemoryChunk)
    requires forall e <- live :: e.chunk != c
    ensures Uses(live, c) == 0
  {
    UsesPositive(live, c);
  }
}
