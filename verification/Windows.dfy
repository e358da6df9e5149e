/** Lists of windows read as one flat sequence of bytes. */
module Windows {
  import opened Bytes
  import opened Memory

  ghost predicate AllInside(ws: seq<Window>) {
    forall i | 0 <= i < |ws| :: ws[i].Inside() && ws[i].count > 0
  }

  function Total(ws: seq<Window>): nat {
    if ws == [] then 0 else ws[0].count + Total(ws[1..])
  }

  ghost function Flat(ws: seq<Window>): (s: seq<byte>)
    requires AllInside(ws)
    reads set w | w in ws :: w.chunk.data
    ensures |s| == Total(ws)
  {
    if ws == [] then [] else Content(ws[0].Span()) + Flat(ws[1..])
  }

  lemma {:induction false} FlatCat(a: seq<Window>, b: seq<Window>)
    requires AllInside(a) && AllInside(b)
    ensures AllInside(a + b) && Flat(a + b) == Flat(a) + Flat(b) && Total(a + b) == Total(a) + Total(b)
    decreases |a|
  {
    hide Content;
    if a == [] {
      assert a + b == b;
    } else {
      HeadOfCat(a, b);
      FlatCat(a[1..], b);
      Regroup(Content(a[0].Span()), Flat(a[1..]), Flat(b));
    }
  }

  lemma HeadOfCat(a: seq<Window>, b: seq<Window>)
    requires a != []
    ensures (a + b)[0] == a[0] && (a + b)[1..] == a[1..] + b
  {
  }

  lemma Regroup(a: seq<byte>, b: seq<byte>, c: seq<byte>)
    ensures a + (b + c) == (a + b) + c
  {
  }

  lemma FlatOne(w: Window)
    requires w.Inside() && w.count > 0
    ensures AllInside([w]) && Flat([w]) == Content(w.Span()) && Total([w]) == w.count
  {
  }

  lemma FlatSnoc(ws: seq<Window>, w: Window)
    requires AllInside(ws) && w.Inside() && w.count > 0
    ensures AllInside(ws + [w]) && Flat(ws + [w]) == Flat(ws) + Content(w.Span()) && Total(ws + [w]) == Total(ws) + w.count
  {
    FlatOne(w);
    FlatCat(ws, [w]);
  }

  /** Cursors do not matter for the bytes. */
  lemma {:induction false} FlatOfSpans(a: seq<Window>, b: seq<Window>)
    requires AllInside(a) && AllInside(b) && Spans(a) == Spans(b)
    ensures Flat(a) == Flat(b) && Total(a) == Total(b)
    decreases |a|
  {
    assert |a| == |Spans(a)| == |Spans(b)| == |b|;
    if a != [] {
      assert Spans(a)[0] == Spans(b)[0];
      assert Spans(a[1..]) == Spans(a)[1..] == Spans(b)[1..] == Spans(b[1..]);
      FlatOfSpans(a[1..], b[1..]);
    }
  }

  /** The bytes are the same when every window's bytes are. */
  twostate lemma {:induction false} FlatUnchanged(ws: seq<Window>)
    requires AllInside(ws)
    requires forall i | 0 <= i < |ws| :: Content(ws[i].Span()) == old(Content(ws[i].Span()))
    ensures Flat(ws) == old(Flat(ws))
    decreases |ws|
  {
    if ws != [] {
      FlatUnchanged(ws[1..]);
    }
  }

  /** The two parts of a window that is cut after `n` bytes. */
  lemma CutWindow(w: Window, n: nat)
    requires w.Inside() && n <= w.count
    ensures Content(w.ShrinkCount(w.count - n).Span()) == Content(w.Span())[..n]
    ensures Content(w.ForwardOffset(n).Span()) == Content(w.Span())[n..]
  {
  }

  // ---------------------------------------------------------------- exclusive windows

  lemma WholeChunksAreExclusive(ws: seq<Window>, before: multiset<Extent>, size: nat)
    requires WholeChunks(ws, before, size)
    ensures forall i | 0 <= i < |ws| :: Exclusive(ws[i].Span(), before + multiset(Spans(ws)))
  {
    var es := Spans(ws);
    forall i | 0 <= i < |ws|
      ensures Exclusive(ws[i].Span(), before + multiset(es))
    {
      var e := es[i];
      assert es == es[..i] + [e] + es[i + 1..];
      assert e !in es[..i] && e !in es[i + 1..];
      assert multiset(es) == multiset(es[..i]) + multiset{e} + multiset(es[i + 1..]);
      forall f | f in before + multiset(es) && f != e
        ensures !Overlap(e, f)
      {
        if f !in before {
          assert f in es;
        }
      }
    }
  }

  /** An exclusive window stays exclusive when windows on other chunks are added. */
  lemma ExclusiveWithOthers(e: Extent, live: multiset<Extent>, ws: seq<Window>, size: nat)
    requires Exclusive(e, live) && WholeChunks(ws, live, size)
    ensures Exclusive(e, live + multiset(Spans(ws)))
  {
    var es := Spans(ws);
    forall f | f in es
      ensures f.chunk != e.chunk
    {
      var i :| 0 <= i < |es| && es[i] == f;
      assert e in live;
    }
    assert multiset(es)[e] == 0 by {
      if e in es {
        assert false;
      }
    }
  }

  /** `f` is part of `e`. */
  ghost predicate Part(f: Extent, e: Extent) {
    f.chunk == e.chunk && e.offset <= f.offset && f.offset + f.count <= e.offset + e.count && f.count > 0
  }

  /** Cutting an exclusive window leaves both parts exclusive, and every other exclusive window too. */
  lemma CutExclusive(e: Extent, live: multiset<Extent>, a: Extent, b: Extent)
    requires Exclusive(e, live) && Part(a, e) && Part(b, e) && !Overlap(a, b)
    ensures var after := live - multiset{e} + multiset{a} + multiset{b};
      Exclusive(a, after) && Exclusive(b, after)
  {
    assert e !in live - multiset{e};
    assert a !in live - multiset{e} && b !in live - multiset{e};
  }

  lemma OthersStayExclusive(g: Extent, e: Extent, live: multiset<Extent>, a: Extent, b: Extent)
    requires Exclusive(g, live) && e in live && g != e && g.count > 0 && Part(a, e) && Part(b, e)
    ensures Exclusive(g, live - multiset{e} + multiset{a} + multiset{b})
  {
    assert !Overlap(g, e);
    assert a != g && b != g;
  }

  // ---------------------------------------------------------------- writing

  /** Every live window lies inside its chunk, and chunks do not share their arrays. */
  ghost predicate Apart(live: multiset<Extent>) {
    && (forall e <- live :: e.offset + e.count <= e.chunk.data.Length)
    && (forall e <- live, f <- live :: e.chunk != f.chunk ==> e.chunk.data != f.chunk.data)
  }

  /** memcpy into a window. No other live window sees a change. */
  method WriteAt(w: Window, at: nat, bytes: seq<byte>, ghost live: multiset<Extent>)
    requires w.Inside() && at + |bytes| <= w.count
    requires Apart(live) && Exclusive(w.Span(), live)
    modifies w.chunk.data
    ensures Content(w.Span()) == old(Content(w.Span()))[..at] + bytes + old(Content(w.Span()))[at + |bytes|..]
    ensures forall f <- live :: f != w.Span() ==> Content(f) == old(Content(f))
  {
    var data, start := w.chunk.data, w.offset + at;
    forall k | 0 <= k < |bytes| {
      data[start + k] := bytes[k];
    }
  }

  /** The first window of a list takes the bytes; the rest of the list keeps its own. */
  method ScatterFirst(ws: seq<Window>, bytes: seq<byte>, ghost live: multiset<Extent>)
    requires AllInside(ws) && ws != [] && |bytes| <= ws[0].count
    requires Apart(live) && multiset(Spans(ws)) <= live
    requires Exclusive(ws[0].Span(), live)
    modifies ws[0].chunk.data
    ensures Content(ws[0].Span()) == bytes + old(Content(ws[0].Span()))[|bytes|..]
    ensures Flat(ws[1..]) == old(Flat(ws[1..]))
    ensures ws[0].Span() in live && ws[0].Span() !in multiset(Spans(ws[1..]))
    ensures forall f <- live :: f != ws[0].Span() ==> Content(f) == old(Content(f))
  {
    hide Exclusive, Content, Overlap, Spans;
    HeadDiffers(ws, live);
    label start:
    WriteAt(ws[0], 0, bytes, live);
    FlatUnchanged@start(ws[1..]);
  }

  /** readv: the kernel fills the windows in order. */
  method Scatter(ws: seq<Window>, input: seq<byte>, ghost live: multiset<Extent>)
    requires AllInside(ws) && |input| <= Total(ws)
    requires Apart(live) && multiset(Spans(ws)) <= live
    requires forall i | 0 <= i < |ws| :: Exclusive(ws[i].Span(), live)
    modifies set w | w in ws :: w.chunk.data
    ensures Flat(ws) == input + old(Flat(ws))[|input|..]
    ensures forall f <- live :: f !in multiset(Spans(ws)) ==> Content(f) == old(Content(f))
    decreases |ws|
  {
    hide Exclusive, Flat, Content, Overlap, Spans;
    FlatStep(ws);
    if ws != [] {
      var n := if |input| < ws[0].count then |input| else ws[0].count;
      HeadSpan(ws);
      ghost var first, others := Content(ws[0].Span()), Flat(ws[1..]);
      ScatterFirst(ws, input[..n], live);
      Scatter(ws[1..], input[n..], live);
      FlatStep(ws);
      ScatterSum(input, n, first, others);
    } else {
      assert input == [] && Flat(ws)[0..] == [];
    }
  }

  lemma FlatStep(ws: seq<Window>)
    requires AllInside(ws)
    ensures ws != [] ==> AllInside(ws[1..]) && ws[0].Inside()
    ensures Flat(ws) == if ws == [] then [] else Content(ws[0].Span()) + Flat(ws[1..])
    ensures Total(ws) == if ws == [] then 0 else ws[0].count + Total(ws[1..])
  {
  }

  lemma ScatterSum(input: seq<byte>, n: nat, first: seq<byte>, others: seq<byte>)
    requires |input| <= |first| + |others| && n == if |input| < |first| then |input| else |first|
    ensures input[..n] + first[n..] + (input[n..] + others[|input| - n..])
            == input + (first + others)[|input|..]
  {
    assert input == input[..n] + input[n..];
  }

  /** The first window is none of the others. */
  lemma HeadDiffers(ws: seq<Window>, live: multiset<Extent>)
    requires ws != [] && multiset(Spans(ws)) <= live && Exclusive(ws[0].Span(), live)
    ensures ws[0].Span() in live && ws[0].Span() !in multiset(Spans(ws[1..]))
    ensures var rest := ws[1..];
      forall i | 0 <= i < |rest| :: rest[i].Span() in live && rest[i].Span() != ws[0].Span()
  {
    HeadSpan(ws);
    var rest := ws[1..];
    forall i | 0 <= i < |rest|
      ensures rest[i].Span() in multiset(Spans(rest))
    {
      assert Spans(rest)[i] == rest[i].Span();
    }
  }

  lemma HeadSpan(ws: seq<Window>)
    requires ws != []
    ensures multiset(Spans(ws)) == multiset{ws[0].Span()} + multiset(Spans(ws[1..]))
  {
    assert Spans(ws) == [ws[0].Span()] + Spans(ws[1..]);
  }
}
