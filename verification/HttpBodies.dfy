/** Message bodies: chunked coding (section 3.6.1 of RFC 2616), known lengths, and the end of the connection. */
module HttpBodies {
  import opened HttpMachine
  import opened HttpSafety
  import opened HttpExecute
  import opened HttpSplit
  import opened HttpHeaders
  import opened HttpFraming
  import opened HttpResponse

  // ---------------------------------------------------------------- the end of the headers

  datatype Framing = NoBody | ChunkedBody | LengthBody | UntilClose

  predicate BodilessStatus(status: nat) {
    status / 100 == 1 || status == 204 || status == 304
  }

  /** The order in which section 4.4 of RFC 2616 decides. `head` tells a response to a HEAD request. */
  function RfcFraming(status: nat, m: Meta, head: bool): Framing {
    if head || BodilessStatus(status) then NoBody
    else if m.flags.chunked then ChunkedBody
    else if m.length == NoLength then UntilClose
    else if m.length == 0 then NoBody
    else LengthBody
  }

  /** The order in which the parser decides. */
  function FramingOf(status: nat, m: Meta, head: bool): Framing {
    if head then NoBody
    else if m.flags.chunked then ChunkedBody
    else if m.length == 0 then NoBody
    else if m.length != NoLength then LengthBody
    else if BodilessStatus(status) then NoBody
    else UntilClose
  }

  /** The parser follows the standard unless a bodiless status carries a chunked coding or a nonzero length. */
  lemma FramingFollowsRfc(status: nat, m: Meta, head: bool)
    ensures FramingOf(status, m, head) == RfcFraming(status, m, head) <==>
      head || !BodilessStatus(status) || (!m.flags.chunked && (m.length == 0 || m.length == NoLength))
  {
  }

  /** A 304 answer that announces a length (as answers to conditional requests may) is read as having a body. */
  lemma NotModifiedWithLength()
    ensures RfcFraming(304, Meta(NoFlags, 5), false) == NoBody && FramingOf(304, Meta(NoFlags, 5), false) == LengthBody
  {
  }

  /** The parser after the blank line that ends the headers of a message without upgrade. */
  function AfterHead(p: Parser): Parser {
    var f := if p.head then p.flags.(skipBody := true) else p.flags;
    var q := p.(state := HeadersDone, nread := 0, flags := f, upgrade := false);
    match FramingOf(p.status, MetaOf(p), p.head)
    case NoBody => q.(state := NewMessage(q))
    case ChunkedBody => q.(state := ChunkSizeStart)
    case LengthBody => q.(state := BodyIdentity)
    case UntilClose => q.(state := BodyIdentityEof)
  }

  predicate PlainHead(p: Parser) {
    p.err.Ok? && LineStart(p.state) && !p.flags.trailing && !p.flags.upgrade && !p.flags.skipBody
  }

  lemma BlankLineStart(p: Parser)
    requires p.err.Ok? && LineStart(p.state) && p.nread < MaxHeaderSize
    ensures Reads(p, [CR], p.(state := HeadersAlmostDone, nread := p.nread + 1), [])
  {
    hide Reads, Token, SwitchVersion, SwitchStatus, SwitchField, SwitchHeaderValueStart, SwitchHeaderValue,
         SwitchHeadersEnd, SwitchBody;
    var start := p.(state := HeaderFieldStart, nread := p.nread + 1);
    var q := p.(state := HeadersAlmostDone, nread := p.nread + 1);
    assert Reexecute(start, CR) == Run(q, [], false, 1);
    ReadsByte(p, CR, q, []);
  }

  lemma HeadersDoneMove(q: Parser)
    requires q.state.HeadersDone? && !q.upgrade && q.flags.skipBody == q.head
    ensures var m := SwitchHeadersEnd(q, LF); var framing := FramingOf(q.status, MetaOf(q), q.head);
      && !m.again && !m.exit && m.take.NoData? && m.p.err == q.err
      && m.notes == (if framing.NoBody? then [MessageComplete] else [])
      && m.p == q.(nread := 0, state := match framing
                   case NoBody => NewMessage(q)
                   case ChunkedBody => ChunkSizeStart
                   case LengthBody => BodyIdentity
                   case UntilClose => BodyIdentityEof)
  {
    var r := q.(nread := 0);
    assert NewMessage(r) == NewMessage(q);
  }

  /** The blank line after the headers. A message without body is complete here. */
  lemma ReadBlankLine(p: Parser)
    requires PlainHead(p) && p.nread + 2 <= MaxHeaderSize
    ensures Reads(p, CRLF, AfterHead(p),
                  [HeadersComplete] + if FramingOf(p.status, MetaOf(p), p.head).NoBody? then [MessageComplete] else [])
  {
    hide Reads, NewMessage, FramingOf;
    BlankLineStart(p);
    var mid := p.(state := HeadersAlmostDone, nread := p.nread + 1);
    var f := if p.head then p.flags.(skipBody := true) else p.flags;
    var done := p.(state := HeadersDone, nread := p.nread + 2, flags := f, upgrade := false);
    HeadersDoneMove(done);
    NewMessageIgnoresCount(done, 0);
    var notes := SwitchHeadersEnd(done, LF).notes;
    FramingIgnoresSkip(p, done);
    EndOfHeadersByte(mid, done);
    ReadsByte(mid, LF, AfterHead(p), [HeadersComplete] + notes);
    ReadsCat(p, [CR], mid, [], [LF], AfterHead(p), [HeadersComplete] + notes);
    assert [CR] + [LF] == CRLF;
  }

  lemma FramingIgnoresSkip(p: Parser, q: Parser)
    requires q.status == p.status && q.flags.chunked == p.flags.chunked && q.length == p.length
    ensures FramingOf(p.status, MetaOf(p), p.head) == FramingOf(q.status, MetaOf(q), p.head)
  {
  }

  lemma NewMessageIgnoresCount(p: Parser, n: nat)
    ensures NewMessage(p.(nread := n)) == NewMessage(p)
  {
  }

  lemma EndOfHeadersByte(mid: Parser, done: Parser)
    requires mid.err.Ok? && mid.state.HeadersAlmostDone? && mid.nread < MaxHeaderSize
    requires !mid.flags.trailing && !mid.flags.upgrade
    requires done == mid.(state := HeadersDone, nread := mid.nread + 1, upgrade := false,
                          flags := if mid.head then mid.flags.(skipBody := true) else mid.flags)
    requires var m := SwitchHeadersEnd(done, LF); m.p.err.Ok? && !m.again && !m.exit && m.take.NoData?
    ensures var m := SwitchHeadersEnd(done, LF);
      StepByte(mid, LF) == Run(m.p, [HeadersComplete] + m.notes, false, 1)
  {
    var m := SwitchHeadersEnd(done, LF);
    assert Switch(done, LF) == m;
    assert [] + m.notes == m.notes;
    assert Reexecute(done, LF) == Run(m.p, m.notes, false, 1);
    assert [] + [HeadersComplete] == [HeadersComplete];
    assert Switch(mid.(nread := mid.nread + 1), LF) == Move(done, NoData, [HeadersComplete], true, false);
  }

  // ---------------------------------------------------------------- bodies

  lemma LastByte(p: Parser, ch: char)
    requires p.err.Ok? && p.state.BodyIdentity? && p.length == 1
    ensures var q := p.(length := 0, state := NewMessage(p.(length := 0)));
      StepByte(p, ch) == Run(q, [BodyByte(ch), MessageComplete], false, 1)
  {
    hide SwitchVersion, SwitchStatus, SwitchFieldStart, SwitchField, SwitchHeaderValueStart, SwitchHeaderValue,
         SwitchHeaderLineEnd, SwitchHeadersEnd, NewMessage;
    var done := p.(length := 0, state := MessageDone);
    var q := p.(length := 0, state := NewMessage(p.(length := 0)));
    NewMessageIgnoresState(p.(length := 0), MessageDone);
    assert [] + [MessageComplete] == [MessageComplete];
    assert Reexecute(done, ch) == Run(q, [MessageComplete], false, 1);
    assert [BodyByte(ch)] + [] == [BodyByte(ch)];
    assert [BodyByte(ch)] + [MessageComplete] == [BodyByte(ch), MessageComplete];
  }

  lemma NewMessageIgnoresState(p: Parser, s: State)
    ensures NewMessage(p.(state := s)) == NewMessage(p)
  {
  }

  lemma LastOfData(data: string)
    requires data != []
    ensures var k := |data| - 1; data[k..] == [data[k]] && data[0..|data|] == data && data[0..k] == data[..k]
  {
  }

  /** All bytes of a run but the last one are taken alike. */
  lemma BulkAndLast(p: Parser, data: string, q: Parser, ev: seq<Event>)
    requires p.err.Ok? && (p.state.BodyIdentity? || p.state.ChunkData?) && 0 < |data| == p.length
    requires Reads(p.(length := 1), [data[|data| - 1]], q, ev)
    ensures Reads(p, data, q, Bytes(BodyData, data[..|data| - 1]) + ev)
  {
    hide Fold, Bytes;
    BulkCopy(p, data, |data| - 1);
    LastOfData(data);
  }

  /** A body of known length: exactly its bytes, and completion on the last of them. */
  lemma ReadLength(p: Parser, data: string)
    requires p.err.Ok? && p.state.BodyIdentity? && 0 < |data| == p.length
    ensures var q := p.(length := 0, state := NewMessage(p.(length := 0)));
      Reads(p, data, q, Bytes(BodyData, data) + [MessageComplete])
  {
    hide Reads, Bytes, StepByte, NewMessage;
    var k := |data| - 1;
    var one := p.(length := 1);
    var q := p.(length := 0, state := NewMessage(p.(length := 0)));
    LastByte(one, data[k]);
    ReadsByte(one, data[k], q, [BodyByte(data[k]), MessageComplete]);
    BulkAndLast(p, data, q, [BodyByte(data[k]), MessageComplete]);
    LastOfData(data);
    BytesSnoc(BodyData, data, 0, k);
    assert Bytes(BodyData, data[..k]) + [BodyByte(data[k]), MessageComplete]
        == Bytes(BodyData, data[..k]) + [BodyByte(data[k])] + [MessageComplete];
  }

  /** Without a length the body is everything up to the end of the connection, which completes it. */
  lemma ReadUntilClose(p: Parser, data: string)
    requires p.err.Ok? && p.state.BodyIdentityEof?
    ensures Reads(p, data, p, Bytes(BodyData, data)) && AtEof(p) == Run(p, [MessageComplete], false, 0)
  {
    hide StepByte;
    BulkCopyToEof(p, data, |data|);
    assert data[|data|..] == [] && data[..|data|] == data;
    assert Bytes(BodyData, data) + [] == Bytes(BodyData, data);
  }

  // ---------------------------------------------------------------- chunked coding

  function HexValue(s: string): int
    requires forall c <- s :: Unhex(c) >= 0
  {
    if s == [] then 0
    else
      assert forall c <- s[..|s| - 1] :: c in s;
      HexValue(s[..|s| - 1]) * 16 + Unhex(s[|s| - 1])
  }

  predicate HexText(s: string) {
    s != [] && forall c <- s :: Unhex(c) >= 0
  }

  /** A chunk: its size in hexadecimal, an optional extension, its data. */
  datatype Chunk = Chunk(size: string, ext: string, data: string)

  predicate ValidExt(ext: string) {
    (ext != [] ==> ext[0] == ';' || ext[0] == ' ') && forall c <- ext :: c != CR
  }

  predicate SizeLine(size: string, ext: string, n: nat) {
    HexText(size) && HexValue(size) == n < NoLength && ValidExt(ext) && |size| + |ext| + 2 <= MaxHeaderSize
  }

  predicate ValidChunk(c: Chunk) {
    c.data != [] && SizeLine(c.size, c.ext, |c.data|)
  }

  function ChunkText(c: Chunk): string {
    c.size + c.ext + CRLF + (c.data + CRLF)
  }

  function ChunksText(chunks: seq<Chunk>): string {
    if chunks == [] then [] else ChunkText(chunks[0]) + ChunksText(chunks[1..])
  }

  function ChunksData(chunks: seq<Chunk>): string {
    if chunks == [] then [] else chunks[0].data + ChunksData(chunks[1..])
  }

  lemma {:induction false} HexGrows(a: string, b: string)
    requires forall c <- a + b :: Unhex(c) >= 0
    requires forall c <- a :: Unhex(c) >= 0
    ensures 0 <= HexValue(a) <= HexValue(a + b)
    decreases |a| + |b|, |b|
  {
    if b == [] {
      assert a + b == a;
      if a != [] {
        assert a[|a| - 1] in a;
        assert forall c <- a[..|a| - 1] + [] :: c in a;
        HexGrows(a[..|a| - 1], []);
        assert a[..|a| - 1] + [] == a[..|a| - 1];
      }
    } else {
      var c := b[..|b| - 1];
      assert (a + b)[..|a + b| - 1] == a + c;
      assert forall d <- a + c :: d in a + b;
      HexGrows(a, c);
      assert b[|b| - 1] in a + b;
    }
  }

  lemma HexSnoc(s: string, c: char)
    requires (forall d <- s :: Unhex(d) >= 0) && Unhex(c) >= 0
    ensures (forall d <- s + [c] :: Unhex(d) >= 0) && HexValue(s + [c]) == HexValue(s) * 16 + Unhex(c)
  {
    assert (s + [c])[..|s|] == s;
  }

  lemma {:induction false} SizeDigits(p: Parser, done: string, rest: string)
    requires p.err.Ok? && p.state.ChunkSize? && p.nread + |rest| <= MaxHeaderSize
    requires (forall c <- done :: Unhex(c) >= 0) && (forall c <- done + rest :: Unhex(c) >= 0)
    requires p.length == HexValue(done) && HexValue(done + rest) < NoLength
    ensures 0 <= HexValue(done + rest)
    ensures Reads(p, rest, p.(length := HexValue(done + rest), nread := p.nread + |rest|), [])
    decreases |rest|
  {
    hide Reads, HexValue, AddDigit, Unhex, SwitchVersion, SwitchStatus, SwitchFieldStart, SwitchField,
         SwitchHeaderValueStart, SwitchHeaderValue, SwitchHeaderLineEnd, SwitchHeadersEnd;
    HexGrows(done, rest);
    if rest == [] {
      ReadsNothing(p);
      assert done + rest == done;
    } else {
      var c, more := rest[0], rest[1..];
      assert c in done + rest && rest == [c] + more && done + rest == done + [c] + more;
      UnhexIsNotCr(c);
      HexSnoc(done, c);
      HexGrows(done + [c], more);
      AddDigitExact(p.length, 16, Unhex(c));
      HeaderByte(p, c);
      var mid := p.(length := HexValue(done + [c]), nread := p.nread + 1);
      SizeDigits(mid, done + [c], more);
      ReadsCat(p, [c], mid, [], more, mid.(length := HexValue(done + rest), nread := mid.nread + |more|), []);
    }
  }

  lemma UnhexIsNotCr(c: char)
    requires Unhex(c) >= 0
    ensures c != CR
  {
  }

  lemma ReadSize(p: Parser, size: string)
    requires p.err.Ok? && p.state.ChunkSizeStart? && p.nread + |size| <= MaxHeaderSize
    requires HexText(size) && HexValue(size) < NoLength
    ensures 0 <= HexValue(size)
    ensures Reads(p, size, p.(state := ChunkSize, length := HexValue(size), nread := p.nread + |size|), [])
  {
    hide Reads, HexValue, AddDigit, Unhex, SwitchVersion, SwitchStatus, SwitchFieldStart, SwitchField,
         SwitchHeaderValueStart, SwitchHeaderValue, SwitchHeaderLineEnd, SwitchHeadersEnd;
    var c, more := size[0], size[1..];
    assert c in size && size == [c] + more;
    HeaderByte(p, c);
    var mid := p.(state := ChunkSize, length := Unhex(c), nread := p.nread + 1);
    HexSnoc([], c);
    assert [] + [c] == [c];
    assert HexValue([]) == 0 by { HexOfNothing(); }
    SizeDigits(mid, [c], more);
    ReadsCat(p, [c], mid, [], more, mid.(length := HexValue(size), nread := mid.nread + |more|), []);
  }

  lemma HexOfNothing()
    ensures HexValue([]) == 0
  {
  }

  lemma {:induction false} ReadParameters(p: Parser, s: string)
    requires p.err.Ok? && p.state.ChunkParameters? && p.nread + |s| <= MaxHeaderSize
    requires forall c <- s :: c != CR
    ensures Reads(p, s, p.(nread := p.nread + |s|), [])
    decreases |s|
  {
    hide Reads, AddDigit, Unhex;
    if s == [] {
      ReadsNothing(p);
    } else {
      var c, more := s[0], s[1..];
      assert c in s && s == [c] + more;
      assert forall d <- more :: d in s;
      HeaderByte(p, c);
      var mid := p.(nread := p.nread + 1);
      ReadParameters(mid, more);
      ReadsCat(p, [c], mid, [], more, mid.(nread := mid.nread + |more|), []);
    }
  }

  /** The parser after a chunk-size line that announced `n` bytes. */
  function AfterSize(p: Parser, n: nat): Parser {
    if n == 0 then p.(state := HeaderFieldStart, length := 0, nread := 0, flags := p.flags.(trailing := true))
    else p.(state := ChunkData, length := n, nread := 0)
  }

  lemma EndOfSize(p: Parser)
    requires p.err.Ok? && (p.state.ChunkSize? || p.state.ChunkParameters?) && p.nread + 2 <= MaxHeaderSize
    ensures Reads(p, CRLF, AfterSize(p, p.length), [])
  {
    hide Reads, AddDigit, Unhex, SwitchVersion, SwitchStatus, SwitchFieldStart, SwitchField,
         SwitchHeaderValueStart, SwitchHeaderValue, SwitchHeaderLineEnd, SwitchHeadersEnd;
    HeaderByte(p, CR);
    var mid := p.(state := ChunkSizeAlmostDone, nread := p.nread + 1);
    HeaderByte(mid, LF);
    ReadsCat(p, [CR], mid, [], [LF], AfterSize(p, p.length), []);
    assert [CR] + [LF] == CRLF;
  }

  lemma ReadExt(p: Parser, ext: string)
    requires p.err.Ok? && p.state.ChunkSize? && ValidExt(ext) && p.nread + |ext| <= MaxHeaderSize
    ensures Reads(p, ext, p.(state := if ext == [] then ChunkSize else ChunkParameters, nread := p.nread + |ext|), [])
  {
    hide Reads, AddDigit, SwitchVersion, SwitchStatus, SwitchFieldStart, SwitchField,
         SwitchHeaderValueStart, SwitchHeaderValue, SwitchHeaderLineEnd, SwitchHeadersEnd;
    if ext == [] {
      ReadsNothing(p);
    } else {
      var c, more := ext[0], ext[1..];
      assert ext == [c] + more && forall d <- more :: d in ext;
      HeaderByte(p, c);
      var mid := p.(state := ChunkParameters, nread := p.nread + 1);
      ReadParameters(mid, more);
      ReadsCat(p, [c], mid, [], more, mid.(nread := mid.nread + |more|), []);
    }
  }

  lemma ReadSizeLine(p: Parser, size: string, ext: string, n: nat)
    requires p.err.Ok? && p.state.ChunkSizeStart? && p.nread == 0 && SizeLine(size, ext, n)
    ensures Reads(p, size + ext + CRLF, AfterSize(p, n), [])
  {
    hide Reads, HexValue, HexText, ValidExt;
    ReadSize(p, size);
    var a := p.(state := ChunkSize, length := n, nread := |size|);
    ReadExt(a, ext);
    var b := a.(state := if ext == [] then ChunkSize else ChunkParameters, nread := a.nread + |ext|);
    EndOfSize(b);
    assert AfterSize(b, n) == AfterSize(p, n);
    ReadsCat(p, size, a, [], ext, b, []);
    ReadsCat(p, size + ext, b, [], CRLF, AfterSize(p, n), []);
  }

  lemma LastChunkByte(p: Parser, ch: char)
    requires p.err.Ok? && p.state.ChunkData? && p.length == 1
    ensures StepByte(p, ch) == Run(p.(length := 0, state := ChunkDataAlmostDone), [BodyByte(ch)], false, 1)
  {
    hide SwitchVersion, SwitchStatus, SwitchFieldStart, SwitchField, SwitchHeaderValueStart, SwitchHeaderValue,
         SwitchHeaderLineEnd, SwitchHeadersEnd;
  }

  lemma ChunkEnd(p: Parser)
    requires p.err.Ok? && p.state.ChunkDataAlmostDone? && p.nread == 0
    ensures Reads(p, CRLF, p.(state := ChunkSizeStart), [])
  {
    hide Reads, SwitchVersion, SwitchStatus, SwitchFieldStart, SwitchField, SwitchHeaderValueStart,
         SwitchHeaderValue, SwitchHeaderLineEnd, SwitchHeadersEnd;
    var mid := p.(state := ChunkDataDone);
    assert StepByte(p, CR) == Run(mid, [], false, 1);
    ReadsByte(p, CR, mid, []);
    assert StepByte(mid, LF) == Run(p.(state := ChunkSizeStart), [], false, 1);
    ReadsByte(mid, LF, p.(state := ChunkSizeStart), []);
    ReadsCat(p, [CR], mid, [], [LF], p.(state := ChunkSizeStart), []);
    assert [CR] + [LF] == CRLF;
  }

  lemma ReadChunkData(p: Parser, data: string)
    requires p.err.Ok? && p.state.ChunkData? && p.nread == 0 && 0 < |data| == p.length
    ensures Reads(p, data + CRLF, p.(state := ChunkSizeStart, length := 0), Bytes(BodyData, data))
  {
    hide Reads, Bytes, StepByte;
    var k := |data| - 1;
    var one, done := p.(length := 1), p.(length := 0, state := ChunkDataAlmostDone);
    LastChunkByte(one, data[k]);
    ReadsByte(one, data[k], done, [BodyByte(data[k])]);
    BulkAndLast(p, data, done, [BodyByte(data[k])]);
    LastOfData(data);
    BytesSnoc(BodyData, data, 0, k);
    ChunkEnd(done);
    ReadsCat(p, data, done, Bytes(BodyData, data), CRLF, p.(state := ChunkSizeStart, length := 0), []);
  }

  lemma ReadChunk(p: Parser, c: Chunk)
    requires p.err.Ok? && p.state.ChunkSizeStart? && p.nread == 0 && ValidChunk(c)
    ensures Reads(p, ChunkText(c), p.(length := 0), Bytes(BodyData, c.data))
  {
    hide Reads, SizeLine;
    ReadSizeLine(p, c.size, c.ext, |c.data|);
    var a := AfterSize(p, |c.data|);
    ReadChunkData(a, c.data);
    ReadsCat(p, c.size + c.ext + CRLF, a, [], c.data + CRLF, p.(length := 0), Bytes(BodyData, c.data));
  }

  lemma {:induction false} ReadChunks(p: Parser, chunks: seq<Chunk>)
    requires p.err.Ok? && p.state.ChunkSizeStart? && p.nread == 0
    requires forall c <- chunks :: ValidChunk(c)
    ensures Reads(p, ChunksText(chunks), if chunks == [] then p else p.(length := 0), Bytes(BodyData, ChunksData(chunks)))
    decreases |chunks|
  {
    hide Reads, ValidChunk, ChunkText;
    if chunks == [] {
      ReadsNothing(p);
    } else {
      var c, more := chunks[0], chunks[1..];
      assert c in chunks && forall d <- more :: d in chunks;
      ReadChunk(p, c);
      var mid := p.(length := 0);
      ReadChunks(mid, more);
      ReadsCat(p, ChunkText(c), mid, Bytes(BodyData, c.data), ChunksText(more), mid, Bytes(BodyData, ChunksData(more)));
      BytesAppend(BodyData, c.data, ChunksData(more));
    }
  }
}
