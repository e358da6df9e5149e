/** The framing theorems: which body bytes a response delivers, and when it is complete. */
module HttpTheorems {
  import opened HttpMachine
  import opened HttpSafety
  import opened HttpExecute
  import opened HttpSplit
  import opened HttpHeaders
  import opened HttpFraming
  import opened HttpResponse
  import opened HttpBodies

  const FreshMeta := Meta(NoFlags, NoLength)

  /** A status line and header lines that `p` can begin with. */
  predicate WellFormedHead(p: Parser, s: StatusText, fields: seq<Field>) {
    && p.err.Ok? && p.state.StartRes?
    && ValidStatus(s) && (forall h <- fields :: ValidField(h))
    && p.nread + |Text(s)| + |Lines(fields)| + 2 <= MaxHeaderSize
  }

  predicate Upgrades(fields: seq<Field>) {
    Effects(FreshMeta, fields).flags.upgrade
  }

  predicate ValidHead(p: Parser, s: StatusText, fields: seq<Field>) {
    WellFormedHead(p, s, fields) && !Upgrades(fields)
  }

  function HeadText(s: StatusText, fields: seq<Field>): string {
    Text(s) + (Lines(fields) + CRLF)
  }

  lemma EffectKeepsFlags(m: Meta, h: Field)
    ensures var f := Effect(m, h).flags; f.trailing == m.flags.trailing && f.skipBody == m.flags.skipBody
  {
    hide Worded, Decimal, LowerName;
  }

  lemma {:induction false} EffectsKeepFlags(m: Meta, fields: seq<Field>)
    ensures var f := Effects(m, fields).flags; f.trailing == m.flags.trailing && f.skipBody == m.flags.skipBody
    decreases |fields|
  {
    hide Effect;
    if fields != [] {
      EffectKeepsFlags(m, fields[0]);
      EffectsKeepFlags(Effect(m, fields[0]), fields[1..]);
    }
  }

  /** Everything but the blank line. */
  lemma ReadFields(p: Parser, s: StatusText, fields: seq<Field>) returns (q: Parser)
    requires WellFormedHead(p, s, fields)
    ensures Reads(p, Text(s) + Lines(fields), q, [MessageBegin] + FieldEvents(fields))
    ensures q.err.Ok? && LineStart(q.state) && q.nread + 2 <= MaxHeaderSize && MetaOf(q) == Effects(FreshMeta, fields)
    ensures q.status == Decimal(s.code) && q.head == p.head && !q.flags.trailing && !q.flags.skipBody
    ensures q.major == Decimal(s.major) && q.minor == Decimal(s.minor)
  {
    hide Reads, ValidStatus, ValidField, Text, Effects, Decimal;
    ReadStatus(p, s);
    var a := AfterStatus(p, s);
    q := ReadLines(a, fields);
    EffectsKeepFlags(FreshMeta, fields);
    assert MetaOf(a) == FreshMeta;
    ReadsCat(p, Text(s), a, [MessageBegin], Lines(fields), q, FieldEvents(fields));
  }

  lemma HeadTextParts(s: StatusText, fields: seq<Field>)
    ensures HeadText(s, fields) == Text(s) + Lines(fields) + CRLF
    ensures |HeadText(s, fields)| == |Text(s)| + |Lines(fields)| + 2
  {
    hide Text, Lines;
  }

  /** The head of a response: its header lines mean what they say, and they decide how the body is framed. */
  lemma ReadHead(p: Parser, s: StatusText, fields: seq<Field>) returns (q: Parser, framing: Framing)
    requires ValidHead(p, s, fields)
    ensures framing == FramingOf(Decimal(s.code), Effects(FreshMeta, fields), p.head)
    ensures Reads(p, HeadText(s, fields), q, [MessageBegin] + FieldEvents(fields) + [HeadersComplete]
                                              + if framing.NoBody? then [MessageComplete] else [])
    ensures q.err.Ok? && q.nread == 0 && q.length == Effects(FreshMeta, fields).length
    ensures q.major == Decimal(s.major) && q.minor == Decimal(s.minor)
    ensures q.flags == Effects(FreshMeta, fields).flags.(skipBody := p.head)
    ensures framing.NoBody? ==> q.state == NewMessage(q) && !NeedsEof(q)
    ensures match framing
      case NoBody => q.state.StartRes? || q.state.Dead?
      case ChunkedBody => q.state.ChunkSizeStart?
      case LengthBody => q.state.BodyIdentity? && 0 < q.length < NoLength
      case UntilClose => q.state.BodyIdentityEof?
  {
    hide Reads, ValidStatus, ValidField, Text, Lines, Effects, Decimal;
    var b := ReadFields(p, s, fields);
    LengthInRange(FreshMeta, fields);
    ReadBlankLine(b);
    framing := FramingOf(b.status, MetaOf(b), b.head);
    q := AfterHead(b);
    HeadEnd(b);
    var begin, end := [MessageBegin] + FieldEvents(fields), if framing.NoBody? then [MessageComplete] else [];
    HeadTextParts(s, fields);
    ReadsCat(p, Text(s) + Lines(fields), b, begin, CRLF, q, [HeadersComplete] + end);
    assert begin + ([HeadersComplete] + end) == begin + [HeadersComplete] + end;
  }

  lemma HeadEnd(p: Parser)
    requires PlainHead(p)
    ensures var q := AfterHead(p);
      && q.flags == p.flags.(skipBody := p.head) && q.major == p.major && q.minor == p.minor
      && (FramingOf(p.status, MetaOf(p), p.head).NoBody? ==> q.state == NewMessage(q) && !NeedsEof(q))
  {
  }

  lemma {:induction false} LengthInRange(m: Meta, fields: seq<Field>)
    requires m.length <= NoLength && forall h <- fields :: ValidField(h)
    ensures Effects(m, fields).length <= NoLength
    decreases |fields|
  {
    if fields != [] {
      assert fields[0] in fields && forall h <- fields[1..] :: h in fields;
      LengthKept(m, fields[0]);
      LengthInRange(Effect(m, fields[0]), fields[1..]);
    }
  }

  lemma LengthKept(m: Meta, h: Field)
    requires m.length <= NoLength && ValidField(h)
    ensures Effect(m, h).length <= NoLength
  {
    hide Worded, Decimal, TokenName;
    NameKinds(LowerName(h.name));
  }

  datatype Body =
    | Empty
    | Sized(data: string)
    | Chunks(chunks: seq<Chunk>, lastSize: string, lastExt: string, trailers: seq<Field>)
    | ToEnd(data: string)

  /** The body is written in the coding that the head announces. */
  predicate BodyFits(framing: Framing, length: nat, body: Body) {
    match body
    case Empty => framing.NoBody?
    case Sized(data) => framing.LengthBody? && |data| == length
    case Chunks(chunks, size, ext, trailers) =>
      && framing.ChunkedBody? && (forall c <- chunks :: ValidChunk(c)) && SizeLine(size, ext, 0)
      && (forall h <- trailers :: ValidField(h)) && |Lines(trailers)| + 2 <= MaxHeaderSize
    case ToEnd(_) => framing.UntilClose?
  }

  function BodyText(body: Body): string {
    match body
    case Empty => []
    case Sized(data) => data
    case Chunks(chunks, size, ext, trailers) => ChunksText(chunks) + (size + ext + CRLF + (Lines(trailers) + CRLF))
    case ToEnd(data) => data
  }

  /** The flags when the message is complete: trailers count like header lines. */
  function EndFlags(fields: seq<Field>, body: Body, head: bool): Flags {
    var f := Effects(FreshMeta, fields).flags.(skipBody := head);
    if body.Chunks? then Effects(Meta(f.(trailing := true), 0), body.trailers).flags else f
  }

  /** The bytes the body stands for. */
  function Content(body: Body): string {
    match body
    case Empty => []
    case Sized(data) => data
    case Chunks(chunks, _, _, _) => ChunksData(chunks)
    case ToEnd(data) => data
  }

  function Trailers(body: Body): seq<Field> {
    if body.Chunks? then body.trailers else []
  }

  lemma MessageEnd(p: Parser)
    ensures forall n: nat :: var q := p.(state := NewMessage(p), nread := n); q.state == NewMessage(q)
    ensures var q := p.(state := NewMessage(p)); q.state == NewMessage(q)
  {
  }

  lemma TrailerEnd(p: Parser)
    requires p.err.Ok? && LineStart(p.state) && p.flags.trailing && p.nread + 2 <= MaxHeaderSize
    ensures Reads(p, CRLF, p.(state := NewMessage(p), nread := p.nread + 2), [MessageComplete])
  {
    hide Reads, NewMessage, SwitchVersion, SwitchStatus, SwitchFieldStart, SwitchField, SwitchHeaderValueStart,
         SwitchHeaderValue, SwitchHeaderLineEnd, SwitchBody;
    BlankLineStart(p);
    var mid := p.(state := HeadersAlmostDone, nread := p.nread + 1);
    var q := p.(state := NewMessage(p), nread := p.nread + 2);
    NewMessageIgnoresState(p, HeadersAlmostDone);
    NewMessageIgnoresCount(p.(state := HeadersAlmostDone), p.nread + 2);
    HeaderByte(mid, LF);
    ReadsCat(p, [CR], mid, [], [LF], q, [MessageComplete]);
    assert [CR] + [LF] == CRLF;
  }

  lemma ReadChunkedBody(p: Parser, body: Body) returns (q: Parser)
    requires p.err.Ok? && p.state.ChunkSizeStart? && p.nread == 0
    requires body.Chunks? && BodyFits(ChunkedBody, p.length, body)
    ensures Reads(p, BodyText(body), q, Bytes(BodyData, Content(body)) + FieldEvents(body.trailers) + [MessageComplete])
    ensures q.state.StartRes? || q.state.Dead?
    ensures q.state == NewMessage(q) && q.major == p.major && q.minor == p.minor
    ensures q.flags == Effects(Meta(p.flags.(trailing := true), 0), body.trailers).flags
  {
    hide Reads, SizeLine, ValidField, ValidChunk, Effects;
    var Chunks(chunks, size, ext, trailers) := body;
    ReadChunks(p, chunks);
    var a := if chunks == [] then p else p.(length := 0);
    ReadSizeLine(a, size, ext, 0);
    var b := AfterSize(a, 0);
    var c := ReadLines(b, trailers);
    EffectsKeepFlags(MetaOf(b), trailers);
    TrailerEnd(c);
    q := c.(state := NewMessage(c), nread := c.nread + 2);
    MessageEnd(c);
    var data, lines, end := Bytes(BodyData, ChunksData(chunks)), FieldEvents(trailers), [MessageComplete];
    ReadsCat(b, Lines(trailers), c, lines, CRLF, q, end);
    ReadsCat(a, size + ext + CRLF, b, [], Lines(trailers) + CRLF, q, lines + end);
    ReadsCat(p, ChunksText(chunks), a, data, size + ext + CRLF + (Lines(trailers) + CRLF), q, lines + end);
    assert data + (lines + end) == data + lines + end;
  }

  lemma ReadBody(p: Parser, framing: Framing, body: Body) returns (q: Parser)
    requires p.err.Ok? && p.nread == 0 && !framing.NoBody? && BodyFits(framing, p.length, body)
    requires match framing
      case NoBody => true
      case ChunkedBody => p.state.ChunkSizeStart?
      case LengthBody => p.state.BodyIdentity? && 0 < p.length < NoLength
      case UntilClose => p.state.BodyIdentityEof?
    ensures Reads(p, BodyText(body), q, Bytes(BodyData, Content(body)) + FieldEvents(Trailers(body))
                                        + if body.ToEnd? then [] else [MessageComplete])
    ensures if body.ToEnd? then AtEof(q) == Run(q, [MessageComplete], false, 0) else q.state.StartRes? || q.state.Dead?
    ensures !body.ToEnd? ==> q.state == NewMessage(q) && q.major == p.major && q.minor == p.minor
    ensures body.Sized? ==> q.flags == p.flags && !NeedsEof(q)
    ensures body.Chunks? ==> q.flags == Effects(Meta(p.flags.(trailing := true), 0), body.trailers).flags
  {
    hide Reads, BodyFits;
    var data := Bytes(BodyData, Content(body));
    assert data + [] == data;
    match body {
      case Sized(d) =>
        assert |d| == p.length && framing.LengthBody? by { BodyFitsKinds(framing, p.length, body); }
        ReadLength(p, d);
        q := p.(length := 0, state := NewMessage(p.(length := 0)));
        MessageEnd(p.(length := 0));
      case Chunks(_, _, _, _) =>
        assert framing.ChunkedBody? by { BodyFitsKinds(framing, p.length, body); }
        q := ReadChunkedBody(p, body);
      case ToEnd(d) =>
        assert framing.UntilClose? by { BodyFitsKinds(framing, p.length, body); }
        ReadUntilClose(p, d);
        q := p;
        assert data + [] + [] == data;
      case Empty =>
        BodyFitsKinds(framing, p.length, body);
        assert false;
    }
  }

  lemma BodyFitsKinds(framing: Framing, length: nat, body: Body)
    requires BodyFits(framing, length, body)
    ensures body.Empty? ==> framing.NoBody?
    ensures body.Sized? ==> framing.LengthBody? && |body.data| == length
    ensures body.Chunks? ==> framing.ChunkedBody?
    ensures body.ToEnd? ==> framing.UntilClose?
  {
  }

  // ---------------------------------------------------------------- what the callbacks deliver

  function BodyOf(ev: seq<Event>): string {
    if ev == [] then []
    else (if ev[0].BodyByte? then [ev[0].b] else []) + BodyOf(ev[1..])
  }

  function Completions(ev: seq<Event>): nat {
    if ev == [] then 0 else (if ev[0].MessageComplete? then 1 else 0) + Completions(ev[1..])
  }

  lemma {:induction false} DeliveredCat(a: seq<Event>, b: seq<Event>)
    ensures BodyOf(a + b) == BodyOf(a) + BodyOf(b)
    ensures Completions(a + b) == Completions(a) + Completions(b)
    decreases |a|
  {
    if a == [] {
      assert a + b == b;
    } else {
      assert (a + b)[0] == a[0] && (a + b)[1..] == a[1..] + b;
      DeliveredCat(a[1..], b);
      Regroup(if a[0].BodyByte? then [a[0].b] else [], BodyOf(a[1..]), BodyOf(b));
    }
  }

  lemma Regroup(a: string, b: string, c: string)
    ensures a + (b + c) == a + b + c
  {
  }

  lemma {:induction false} DeliveredBytes(d: Data, s: string)
    ensures BodyOf(Bytes(d, s)) == (if d.BodyData? then s else []) && Completions(Bytes(d, s)) == 0
    decreases |s|
  {
    if s != [] {
      DeliveredBytes(d, s[1..]);
      DeliveredCat(ByteEvents(d, s[0]), Bytes(d, s[1..]));
    }
  }

  lemma {:induction false} DeliveredFields(fields: seq<Field>)
    ensures BodyOf(FieldEvents(fields)) == [] && Completions(FieldEvents(fields)) == 0
    decreases |fields|
  {
    if fields != [] {
      var h := fields[0];
      DeliveredFields(fields[1..]);
      DeliveredBytes(FieldData, h.name);
      DeliveredBytes(ValueData, h.value);
      DeliveredCat(Bytes(FieldData, h.name), Bytes(ValueData, h.value));
      DeliveredCat(Bytes(FieldData, h.name) + Bytes(ValueData, h.value), FieldEvents(fields[1..]));
    }
  }

  lemma DeliveredAll(head: seq<Event>, content: string, lines: seq<Event>, end: seq<Event>)
    requires BodyOf(head) == [] && BodyOf(lines) == [] && BodyOf(end) == []
    requires Completions(head) == 0 && Completions(lines) == 0
    ensures var ev := head + (Bytes(BodyData, content) + lines + end);
      BodyOf(ev) == content && Completions(ev) == Completions(end)
  {
    DeliveredBytes(BodyData, content);
    DeliveredCat(Bytes(BodyData, content), lines);
    DeliveredCat(Bytes(BodyData, content) + lines, end);
    DeliveredCat(head, Bytes(BodyData, content) + lines + end);
  }

  lemma DeliveredHead(fields: seq<Field>)
    ensures var head := [MessageBegin] + FieldEvents(fields) + [HeadersComplete];
      BodyOf(head) == [] && Completions(head) == 0
  {
    DeliveredFields(fields);
    DeliveredCat([MessageBegin], FieldEvents(fields));
    DeliveredCat([MessageBegin] + FieldEvents(fields), [HeadersComplete]);
  }

  /** A whole response, however its body is framed: the body callbacks give exactly its content, and the message is
      complete exactly once: on the last byte, or at the end of the connection when nothing else ends it. */
  lemma ResponseIsDelivered(p: Parser, s: StatusText, fields: seq<Field>, body: Body) returns (r: Run)
    requires ValidHead(p, s, fields)
    requires var m := Effects(FreshMeta, fields); BodyFits(FramingOf(Decimal(s.code), m, p.head), m.length, body)
    ensures !body.ToEnd? ==>
      && r.p.state == NewMessage(r.p) && r.p.major == Decimal(s.major) && r.p.minor == Decimal(s.minor)
      && r.p.flags == EndFlags(fields, body, p.head) && (!body.Chunks? ==> !NeedsEof(r.p))
    ensures r == Fold(p, HeadText(s, fields) + BodyText(body))
    ensures !r.stopped && r.p.err.Ok? && BodyOf(r.ev) == Content(body)
    ensures if body.ToEnd? then Completions(r.ev) == 0 && AtEof(r.p) == Run(r.p, [MessageComplete], false, 0)
            else Completions(r.ev) == 1 && r.ev[|r.ev| - 1].MessageComplete? && (r.p.state.StartRes? || r.p.state.Dead?)
  {
    hide Reads, ValidStatus, ValidField, Effects, Decimal, FramingOf, BodyFits, Fold, BodyOf, Completions;
    var q, framing := ReadHead(p, s, fields);
    var head := [MessageBegin] + FieldEvents(fields) + [HeadersComplete];
    DeliveredHead(fields);
    BodyFitsKinds(framing, q.length, body);
    if framing.NoBody? {
      assert HeadText(s, fields) + BodyText(body) == HeadText(s, fields);
      r := Run(q, head + [MessageComplete], false, |HeadText(s, fields)|);
      ReadsIsFold(p, HeadText(s, fields), q, r.ev);
      DeliveredCat(head, [MessageComplete]);
      DeliveredEnd();
      assert BodyOf(r.ev) == [];
    } else {
      var t := ReadBody(q, framing, body);
      var end := if body.ToEnd? then [] else [MessageComplete];
      var tail := Bytes(BodyData, Content(body)) + FieldEvents(Trailers(body)) + end;
      assert head + [] == head;
      ReadsCat(p, HeadText(s, fields), q, head, BodyText(body), t, tail);
      r := Run(t, head + tail, false, |HeadText(s, fields) + BodyText(body)|);
      ReadsIsFold(p, HeadText(s, fields) + BodyText(body), t, r.ev);
      DeliveredFields(Trailers(body));
      DeliveredEnd();
      DeliveredAll(head, Content(body), FieldEvents(Trailers(body)), end);
    }
    FoldKeepsOk(p, HeadText(s, fields) + BodyText(body), r);
  }

  lemma DeliveredEnd()
    ensures BodyOf([MessageComplete]) == [] && Completions([MessageComplete]) == 1
    ensures BodyOf([]) == [] && Completions([]) == 0
  {
  }

  lemma ReadsIsFold(p: Parser, data: string, q: Parser, ev: seq<Event>)
    requires Reads(p, data, q, ev)
    ensures Fold(p, data) == Run(q, ev, false, |data|)
  {
  }

  lemma FoldKeepsOk(p: Parser, data: string, r: Run)
    requires p.err.Ok? && Fold(p, data) == r && !r.stopped
    ensures r.p.err.Ok?
  {
    FoldUses(p, data);
  }
}
