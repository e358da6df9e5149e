/** The two cursors of a packet: a position in the flat bytes, and one cursor per window. */
module Cursor {
  import opened Bytes
  import opened Memory
  import opened Windows

  /** Windows before `y` are used up, window `y` is partly used, the later ones are untouched. */
  ghost predicate CursorAt(ws: seq<Window>, pos: nat, y: nat) {
    && AllInside(ws) && y <= |ws|
    && (forall i | 0 <= i < y :: ws[i].pos == ws[i].count)
    && (forall i | y < i < |ws| :: ws[i].pos == 0)
    && (y < |ws| ==> ws[y].pos < ws[y].count)
    && pos == Total(ws[..y]) + if y < |ws| then ws[y].pos else 0
  }

  lemma TotalSplit(ws: seq<Window>, y: nat)
    requires y <= |ws|
    ensures Total(ws) == Total(ws[..y]) + Total(ws[y..])
    ensures y < |ws| ==> Total(ws[..y + 1]) == Total(ws[..y]) + ws[y].count
  {
    hide Total;
    assert ws == ws[..y] + ws[y..];
    TotalCat(ws[..y], ws[y..]);
    if y < |ws| {
      assert ws[..y + 1] == ws[..y] + [ws[y]];
      TotalCat(ws[..y], [ws[y]]);
      TotalOne(ws[y]);
    }
  }

  lemma {:induction false} TotalCat(a: seq<Window>, b: seq<Window>)
    ensures Total(a + b) == Total(a) + Total(b)
    decreases |a|
  {
    if a == [] {
      assert a + b == b;
    } else {
      HeadOfCat(a, b);
      TotalCat(a[1..], b);
    }
  }

  lemma TotalOne(w: Window)
    ensures Total([w]) == w.count
  {
  }

  lemma TotalOfSpans(a: seq<Window>, b: seq<Window>)
    requires Spans(a) == Spans(b)
    ensures Total(a) == Total(b)
  {
    assert |a| == |Spans(a)| == |Spans(b)| == |b|;
    if a != [] {
      assert a[0].Span() == Spans(a)[0] == Spans(b)[0] == b[0].Span();
      assert Spans(a[1..]) == Spans(a)[1..] == Spans(b)[1..] == Spans(b[1..]);
      TotalOfSpans(a[1..], b[1..]);
    }
  }

  lemma UpdateKeepsSpans(ws: seq<Window>, i: nat, w: Window)
    requires i < |ws| && w.Span() == ws[i].Span()
    ensures Spans(ws[i := w]) == Spans(ws)
    ensures forall k | 0 <= k <= |ws| :: Total(ws[i := w][..k]) == Total(ws[..k])
  {
    assert Spans(ws[i := w]) == Spans(ws);
    forall k | 0 <= k <= |ws|
      ensures Total(ws[i := w][..k]) == Total(ws[..k])
    {
      assert Spans(ws[i := w][..k]) == Spans(ws[i := w])[..k] == Spans(ws)[..k] == Spans(ws[..k]);
      TotalOfSpans(ws[i := w][..k], ws[..k]);
    }
  }

  /** SkipTo: sets every window's cursor for the flat position `pos`. */
  method SkipWindows(ws: seq<Window>, pos: nat) returns (r: seq<Window>, y: nat)
    requires AllInside(ws) && pos <= Total(ws)
    ensures CursorAt(r, pos, y) && Spans(r) == Spans(ws)
  {
    r, y := ws, 0;
    var left := pos;
    var i := 0;
    assert ws[..0] == [];
    while i < |ws|
      invariant i <= |ws| == |r| && AllInside(r) && Spans(r) == Spans(ws) && y <= i && 0 <= left
      invariant forall k | i <= k < |ws| :: r[k] == ws[k]
      invariant forall k | 0 <= k < y :: r[k].pos == r[k].count
      invariant forall k | y < k < i :: r[k].pos == 0
      invariant if y == i then pos == Total(ws[..i]) + left
                else left == 0 && r[y].pos < r[y].count && pos == Total(ws[..y]) + r[y].pos
    {
      TotalSplit(ws, i);
      ghost var before := r;
      if left == 0 {
        r := r[i := r[i].(pos := 0)];
      } else if left < r[i].count {
        r := r[i := r[i].(pos := left)];
        left := 0;
      } else {
        r := r[i := r[i].(pos := r[i].count)];
        left := left - r[i].count;
        y := y + 1;
      }
      UpdateKeepsSpans(before, i, r[i]);
      i := i + 1;
    }
    TotalSplit(ws, |ws|);
    assert ws[..|ws|] == ws;
    assert Spans(r[..y]) == Spans(r)[..y] == Spans(ws)[..y] == Spans(ws[..y]);
    TotalOfSpans(r[..y], ws[..y]);
  }

  // ---------------------------------------------------------------- reading

  lemma FlatAround(ws: seq<Window>, y: nat)
    requires AllInside(ws) && y < |ws|
    ensures Flat(ws) == Flat(ws[..y]) + Content(ws[y].Span()) + Flat(ws[y + 1..])
  {
    hide Flat, Total;
    Around(ws, y);
    FlatOne(ws[y]);
    FlatCat(ws[..y], [ws[y]]);
    FlatCat(ws[..y] + [ws[y]], ws[y + 1..]);
  }

  lemma Around(ws: seq<Window>, y: nat)
    requires y < |ws|
    ensures ws == ws[..y] + [ws[y]] + ws[y + 1..]
  {
  }

  /** The bytes at the cursor are the bytes of the cursor's window. */
  lemma BytesAtCursor(ws: seq<Window>, pos: nat, y: nat, k: nat)
    requires CursorAt(ws, pos, y) && y < |ws| && ws[y].pos + k <= ws[y].count
    ensures pos + k <= Total(ws)
    ensures Flat(ws)[pos..pos + k] == Content(ws[y].Span())[ws[y].pos..ws[y].pos + k]
  {
    hide Flat, Total, Content;
    FlatAround(ws, y);
    InMiddle(Flat(ws), Flat(ws[..y]), Content(ws[y].Span()), Flat(ws[y + 1..]), pos, ws[y].pos, k);
  }

  lemma InMiddle(s: seq<byte>, a: seq<byte>, b: seq<byte>, c: seq<byte>, pos: nat, i: nat, k: nat)
    requires s == a + b + c && i + k <= |b| && pos == |a| + i
    ensures pos + k <= |s| && s[pos..pos + k] == b[i..i + k]
  {
    var l, r := s[pos..pos + k], b[i..i + k];
    forall j | 0 <= j < k
      ensures l[j] == r[j]
    {
      assert s[pos + j] == (a + b)[pos + j] == b[i + j];
    }
  }

  /** The cursor window after `k` more bytes, and the index of the window to go on with. */
  function Advance(ws: seq<Window>, y: nat, k: nat): (seq<Window>, nat)
    requires y < |ws|
  {
    var w := ws[y].(pos := ws[y].pos + k);
    (ws[y := w], if w.pos == w.count then y + 1 else y)
  }

  lemma AdvanceCursor(ws: seq<Window>, pos: nat, y: nat, k: nat)
    requires CursorAt(ws, pos, y) && y < |ws| && ws[y].pos + k <= ws[y].count
    ensures var (r, z) := Advance(ws, y, k); CursorAt(r, pos + k, z) && Spans(r) == Spans(ws)
  {
    var w := ws[y].(pos := ws[y].pos + k);
    UpdateKeepsSpans(ws, y, w);
    TotalSplit(ws[y := w], y);
  }

  lemma CursorHasMore(ws: seq<Window>, pos: nat, y: nat)
    requires CursorAt(ws, pos, y)
    ensures pos <= Total(ws) && (pos < Total(ws) <==> y < |ws|)
  {
    TotalSplit(ws, y);
    if y == |ws| {
      assert ws[..y] == ws;
    }
  }

  /** The loop of GetByte: copies `count` bytes from the cursor on. */
  method ReadWindows(ws: seq<Window>, y: nat, count: nat, ghost pos: nat)
    returns (bytes: seq<byte>, r: seq<Window>, z: nat)
    requires CursorAt(ws, pos, y) && pos + count <= Total(ws)
    ensures CursorAt(r, pos + count, z) && Spans(r) == Spans(ws)
    ensures bytes == Flat(ws)[pos..pos + count]
  {
    hide CursorAt, Flat, Spans, Total, Content;
    bytes, r, z := [], ws, y;
    CursorInside(ws, pos, y);
    ghost var all := Flat(ws);
    while |bytes| < count && z < |r|
      invariant |bytes| <= count && CursorAt(r, pos + |bytes|, z) && Spans(r) == Spans(ws)
      invariant bytes == all[pos..pos + |bytes|]
      decreases count - |bytes|
    {
      CursorInside(r, pos + |bytes|, z);
      var w := r[z];
      var left := count - |bytes|;
      var k := if w.count - w.pos >= left then left else w.count - w.pos;
      BytesAtCursor(r, pos + |bytes|, z, k);
      FlatOfSpans(r, ws);
      AdvanceCursor(r, pos + |bytes|, z, k);
      Glue(all, pos, |bytes|, k);
      WindowSlice(w, w.pos, k);
      bytes := bytes + w.chunk.data[w.offset + w.pos..w.offset + w.pos + k];
      r := r[z := w.(pos := w.pos + k)];
      if r[z].pos == r[z].count {
        z := z + 1;
      }
    }
    CursorHasMore(r, pos + |bytes|, z);
    TotalOfSpans(r, ws);
  }

  lemma WindowSlice(w: Window, p: nat, k: nat)
    requires w.Inside() && p + k <= w.count
    ensures w.chunk.data[w.offset + p..w.offset + p + k] == Content(w.Span())[p..p + k]
  {
  }

  lemma CursorInside(ws: seq<Window>, pos: nat, y: nat)
    requires CursorAt(ws, pos, y)
    ensures AllInside(ws) && y <= |ws| && (y < |ws| ==> ws[y].pos < ws[y].count)
  {
  }

  lemma Glue(all: seq<byte>, pos: nat, n: nat, k: nat)
    requires pos + n + k <= |all|
    ensures all[pos..pos + n] + all[pos + n..pos + n + k] == all[pos..pos + n + k]
  {
  }

  // ---------------------------------------------------------------- writing

  lemma TwiceIn(es: seq<Extent>, i: nat, j: nat)
    requires i < j < |es|
    ensures es[i] == es[j] ==> multiset(es)[es[i]] >= 2
  {
    assert es == es[..j] + [es[j]] + es[j + 1..];
    assert es[i] in es[..j];
  }

  lemma DistinctSpans(ws: seq<Window>, live: multiset<Extent>)
    requires multiset(Spans(ws)) <= live && forall i | 0 <= i < |ws| :: Exclusive(ws[i].Span(), live)
    ensures forall i, j | 0 <= i < j < |ws| :: ws[i].Span() != ws[j].Span()
    ensures forall i | 0 <= i < |ws| :: ws[i].Span() in live
  {
    var es := Spans(ws);
    forall i | 0 <= i < |ws|
      ensures ws[i].Span() in live
    {
      assert es[i] in multiset(es);
    }
    forall i, j | 0 <= i < j < |ws|
      ensures ws[i].Span() != ws[j].Span()
    {
      TwiceIn(es, i, j);
    }
  }

  /** One round of PutByte's loop: the cursor's window takes what fits. */
  method WriteOne(ws: seq<Window>, y: nat, src: seq<byte>, ghost pos: nat, ghost live: multiset<Extent>)
    returns (k: nat)
    requires CursorAt(ws, pos, y) && y < |ws| && src != []
    requires Apart(live) && multiset(Spans(ws)) <= live
    requires forall i | 0 <= i < |ws| :: Exclusive(ws[i].Span(), live)
    modifies ws[y].chunk.data
    ensures 0 < k <= |src| && ws[y].pos + k <= ws[y].count && pos + k <= Total(ws)
    ensures Flat(ws) == old(Flat(ws))[..pos] + src[..k] + old(Flat(ws))[pos + k..]
    ensures forall f <- live :: f !in multiset(Spans(ws)) ==> Content(f) == old(Content(f))
  {
    hide Flat, Total, Exclusive, Content;
    var w := ws[y];
    k := if w.count - w.pos >= |src| then |src| else w.count - w.pos;
    DistinctSpans(ws, live);
    BytesAtCursor(ws, pos, y, k);
    ghost var was := Flat(ws);
    ghost var a, b, c := Flat(ws[..y]), Content(w.Span()), Flat(ws[y + 1..]);
    FlatAround(ws, y);
    TotalSplit(ws, y);
    SpanIsListed(ws, y);
    label start:
    WriteAt(w, w.pos, src[..k], live);
    FlatUnchanged@start(ws[..y]);
    FlatUnchanged@start(ws[y + 1..]);
    FlatAround(ws, y);
    InMiddleUpdate(was, a, b, c, Flat(ws), Content(w.Span()), w.pos, src[..k], pos);
  }

  lemma SpanIsListed(ws: seq<Window>, y: nat)
    requires y < |ws|
    ensures ws[y].Span() in multiset(Spans(ws))
  {
    assert Spans(ws)[y] == ws[y].Span();
  }

  lemma InMiddleUpdate(was: seq<byte>, a: seq<byte>, b: seq<byte>, c: seq<byte>, now: seq<byte>, b': seq<byte>, i: nat,
                       s: seq<byte>, pos: nat)
    requires i + |s| <= |b| && was == a + b + c && now == a + b' + c && b' == b[..i] + s + b[i + |s|..] && pos == |a| + i
    ensures pos + |s| <= |was| && now == was[..pos] + s + was[pos + |s|..]
  {
  }

  /** The loop of PutByte: writes `src` from the cursor on. */
  method WriteWindows(ws: seq<Window>, y: nat, src: seq<byte>, ghost pos: nat, ghost live: multiset<Extent>)
    returns (r: seq<Window>, z: nat)
    requires CursorAt(ws, pos, y) && pos + |src| <= Total(ws)
    requires Apart(live) && multiset(Spans(ws)) <= live
    requires forall i | 0 <= i < |ws| :: Exclusive(ws[i].Span(), live)
    modifies set w | w in ws :: w.chunk.data
    ensures CursorAt(r, pos + |src|, z) && Spans(r) == Spans(ws)
    ensures Flat(ws) == old(Flat(ws))[..pos] + src + old(Flat(ws))[pos + |src|..]
    ensures forall f <- live :: f !in multiset(Spans(ws)) ==> Content(f) == old(Content(f))
  {
    hide CursorAt, Flat, Spans, Total, Exclusive, Content;
    CursorInside(ws, pos, y);
    ghost var before := Flat(ws);
    r, z := ws, y;
    var done := 0;
    NothingWritten(before, pos);
    while done < |src| && z < |r|
      invariant done <= |src| && CursorAt(r, pos + done, z) && Spans(r) == Spans(ws)
      invariant Flat(ws) == before[..pos] + src[..done] + before[pos + done..]
      invariant forall f <- live :: f !in multiset(Spans(ws)) ==> Content(f) == old(Content(f))
      decreases |src| - done
    {
      r, z, done := WriteStep(ws, r, z, src, done, before, pos, live);
    }
    CursorHasMore(r, pos + done, z);
    TotalOfSpans(r, ws);
    assert src[..|src|] == src;
  }

  /** WriteOne and the move of the cursors; `r` is `ws` with its cursors moved. */
  method WriteStep(ws: seq<Window>, r: seq<Window>, z: nat, src: seq<byte>, done: nat, ghost before: seq<byte>,
                   ghost pos: nat, ghost live: multiset<Extent>)
    returns (r': seq<Window>, z': nat, done': nat)
    requires AllInside(ws) && CursorAt(r, pos + done, z) && Spans(r) == Spans(ws) && z < |r| && done < |src|
    requires pos + |src| <= |before| && Flat(ws) == before[..pos] + src[..done] + before[pos + done..]
    requires Apart(live) && multiset(Spans(ws)) <= live
    requires forall i | 0 <= i < |ws| :: Exclusive(ws[i].Span(), live)
    modifies set w | w in ws :: w.chunk.data
    ensures done < done' <= |src| && CursorAt(r', pos + done', z') && Spans(r') == Spans(ws)
    ensures Flat(ws) == before[..pos] + src[..done'] + before[pos + done'..]
    ensures forall f <- live :: f !in multiset(Spans(ws)) ==> Content(f) == old(Content(f))
  {
    hide CursorAt, Flat, Spans, Total, Exclusive, Content;
    CursorInside(r, pos + done, z);
    FlatOfSpans(r, ws);
    SameChunks(r, ws, z);
    ExclusiveSpans(r, ws, live);
    var k := WriteOne(r, z, src[done..], pos + done, live);
    FlatOfSpans(r, ws);
    AdvanceCursor(r, pos + done, z, k);
    WriteRound(before, src, pos, done, k);
    r' := r[z := r[z].(pos := r[z].pos + k)];
    z' := if r'[z].pos == r'[z].count then z + 1 else z;
    done' := done + k;
  }

  lemma NothingWritten(before: seq<byte>, pos: nat)
    requires pos <= |before|
    ensures before == before[..pos] + [] + before[pos..]
  {
  }

  lemma SameChunks(r: seq<Window>, ws: seq<Window>, z: nat)
    requires Spans(r) == Spans(ws) && z < |r|
    ensures |r| == |ws| && r[z].chunk == ws[z].chunk && ws[z] in ws
  {
    assert |r| == |Spans(r)| == |Spans(ws)| == |ws|;
    assert Spans(r)[z] == r[z].Span() == ws[z].Span();
  }

  lemma ExclusiveSpans(r: seq<Window>, ws: seq<Window>, live: multiset<Extent>)
    requires Spans(r) == Spans(ws) && forall i | 0 <= i < |ws| :: Exclusive(ws[i].Span(), live)
    ensures forall i | 0 <= i < |r| :: Exclusive(r[i].Span(), live)
  {
    assert |r| == |Spans(r)| == |Spans(ws)| == |ws|;
    assert forall i | 0 <= i < |r| :: r[i].Span() == Spans(r)[i] == ws[i].Span();
  }

  lemma WriteRound(before: seq<byte>, src: seq<byte>, pos: nat, done: nat, k: nat)
    requires pos + done + k <= |before| && done + k <= |src|
    ensures var now := before[..pos] + src[..done] + before[pos + done..];
      now[..pos + done] + src[done..][..k] + now[pos + done + k..]
        == before[..pos] + src[..done + k] + before[pos + done + k..]
  {
  }
}
