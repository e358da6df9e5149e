/** Whole responses: what a status line, header lines and each kind of body make the callbacks see. */
module HttpFraming {
  import opened HttpMachine
  import opened HttpSafety
  import opened HttpExecute
  import opened HttpSplit
  import opened HttpHeaders

  const CRLF: string := "\r\n"

  // ---------------------------------------------------------------- header lines

  datatype Field = Field(name: string, space: string, value: string)

  function Line(h: Field): string {
    h.name + (":" + (h.space + (h.value + CRLF)))
  }

  predicate ValidField(h: Field) {
    && TokenName(h.name)
    && (forall c <- h.space :: c == ' ' || c == '\t')
    && (h.value == [] || ValueText(NameState(LowerName(h.name)), h.value))
  }

  /** What the header lines of a message tell about its body and its connection. */
  datatype Meta = Meta(flags: Flags, length: nat)

  /** The meaning of one header line, on its name and its value. */
  function Effect(m: Meta, h: Field): Meta {
    var name := LowerName(h.name);
    if h.value == [] then m
    else if name == UPGRADE then m.(flags := m.flags.(upgrade := true))
    else if name == CONTENT_LENGTH then m.(length := Decimal(h.value))
    else if name == TRANSFER_ENCODING && Worded(h.value, CHUNKED) then m.(flags := m.flags.(chunked := true))
    else if (name == CONNECTION || name == PROXY_CONNECTION) && Worded(h.value, KEEP_ALIVE) then
      m.(flags := m.flags.(keepAlive := true))
    else if (name == CONNECTION || name == PROXY_CONNECTION) && Worded(h.value, CLOSE) then
      m.(flags := m.flags.(close := true))
    else m
  }

  function Effects(m: Meta, fields: seq<Field>): Meta
    decreases |fields|
  {
    if fields == [] then m else Effects(Effect(m, fields[0]), fields[1..])
  }

  function Lines(fields: seq<Field>): string {
    if fields == [] then [] else Line(fields[0]) + Lines(fields[1..])
  }

  function FieldEvents(fields: seq<Field>): seq<Event> {
    if fields == [] then []
    else Bytes(FieldData, fields[0].name) + Bytes(ValueData, fields[0].value) + FieldEvents(fields[1..])
  }

  function MetaOf(p: Parser): Meta {
    Meta(p.flags, p.length)
  }

  /** `q` is `p` in state `s` after `n` more header bytes; what is left of header matching does not matter. */
  predicate Moved(p: Parser, q: Parser, s: State, n: nat, m: Meta) {
    q == p.(state := s, hs := q.hs, index := q.index, nread := p.nread + n, flags := m.flags, length := m.length)
  }

  predicate LineStart(s: State) {
    s.HeaderFieldStart? || s.HeaderValueLws?
  }

  lemma TokenIsNotBlank(c: char)
    requires Token(c) != '\0'
    ensures c != ' ' && c != '\t' && c != CR && c != LF && c != ':'
  {
  }

  lemma LineFirst(p: Parser, c: char) returns (q: Parser)
    requires p.err.Ok? && LineStart(p.state) && p.nread < MaxHeaderSize && Token(c) != '\0'
    ensures Reads(p, [c], q, [FieldByte(c)])
    ensures q == p.(state := HeaderField, hs := q.hs, index := 0, nread := p.nread + 1)
    ensures TracksName(q.hs, q.index, [Token(c)])
  {
    hide Token, FieldFirst, TracksName, Reads, SwitchVersion, SwitchStatus, SwitchField, SwitchHeaderValue,
         SwitchHeaderValueStart, SwitchHeadersEnd, SwitchBody;
    TokenIsNotBlank(c);
    NameFirst(Token(c));
    q := p.(state := HeaderField, hs := FieldFirst(Token(c)), index := 0, nread := p.nread + 1);
    var start := p.(state := HeaderFieldStart, nread := p.nread + 1);
    assert [FieldByte(c)] + [] == [FieldByte(c)] == [] + [] + [FieldByte(c)];
    assert Reexecute(start, c) == Run(q, [FieldByte(c)], false, 1);
    ReadsByte(p, c, q, [FieldByte(c)]);
  }

  lemma Colon(p: Parser)
    requires p.err.Ok? && p.state.HeaderField? && p.nread < MaxHeaderSize
    ensures Reads(p, ":", p.(state := HeaderValueStart, nread := p.nread + 1), [])
  {
    hide Reads, FieldStep;
    HeaderByte(p, ':');
    assert [':'] == ":";
  }

  lemma {:induction false} Blanks(p: Parser, space: string)
    requires p.err.Ok? && p.state.HeaderValueStart? && p.nread + |space| <= MaxHeaderSize
    requires forall c <- space :: c == ' ' || c == '\t'
    ensures Reads(p, space, p.(nread := p.nread + |space|), [])
    decreases |space|
  {
    hide Reads, Lower;
    if space == [] {
      ReadsNothing(p);
    } else {
      var c, more := space[0], space[1..];
      assert c in space && space == [c] + more;
      assert forall d <- more :: d in space;
      HeaderByte(p, c);
      var mid := p.(nread := p.nread + 1);
      Blanks(mid, more);
      ReadsCat(p, [c], mid, [], more, mid.(nread := mid.nread + |more|), []);
    }
  }

  lemma EndOfLine(p: Parser) returns (q: Parser)
    requires p.err.Ok? && p.nread + 2 <= MaxHeaderSize && (p.state.HeaderValue? || p.state.HeaderValueStart?)
    ensures Reads(p, CRLF, q, [])
    ensures var f := if p.state.HeaderValue? then FlagsAfter(p.flags, p.hs) else p.flags;
      Moved(p, q, HeaderValueLws, 2, Meta(f, p.length))
  {
    hide Reads, ValueStep, AddDigit, Lower, SwitchVersion, SwitchStatus, SwitchFieldStart, SwitchField,
         SwitchHeadersEnd, SwitchBody;
    HeaderByte(p, CR);
    var mid := Switch(p.(nread := p.nread + 1), CR).p;
    assert mid.state.HeaderAlmostDone? && mid.nread == p.nread + 1;
    HeaderByte(mid, LF);
    q := Switch(mid.(nread := mid.nread + 1), LF).p;
    ReadsCat(p, [CR], mid, [], [LF], q, []);
    assert [CR] + [LF] == CRLF;
  }

  /** The words the automaton recognises are the ones the header line means. */
  lemma EffectAgrees(m: Meta, h: Field)
    requires h.value != []
    ensures var kind := NameState(LowerName(h.name));
      var flags := if kind.Upgrade? then m.flags.(upgrade := true) else m.flags;
      var length := if kind.ContentLength? then Decimal(h.value) else m.length;
      Effect(m, h) == Meta(FlagsAfter(flags, ValueState(kind, h.value)), length)
  {
    hide Worded, Decimal, Lower;
    var name := LowerName(h.name);
    NameKinds(name);
    WordedBegins(h.value, KEEP_ALIVE);
    WordedBegins(h.value, CLOSE);
  }

  lemma WordedBegins(v: string, word: string)
    requires word != []
    ensures Worded(v, word) ==> v != [] && Lower(v[0]) == word[0]
  {
    if Worded(v, word) {
      assert LowerAll(v[..|word|])[0] == Lower(v[0]);
    }
  }

  lemma NameKinds(name: string)
    ensures NameState(name).Connection? <==> name == CONNECTION || name == PROXY_CONNECTION
    ensures NameState(name).ContentLength? <==> name == CONTENT_LENGTH
    ensures NameState(name).TransferEncoding? <==> name == TRANSFER_ENCODING
    ensures NameState(name).Upgrade? <==> name == UPGRADE
  {
  }

  lemma ReadName(p: Parser, name: string) returns (q: Parser)
    requires p.err.Ok? && LineStart(p.state) && TokenName(name) && p.nread + |name| <= MaxHeaderSize
    ensures Reads(p, name, q, Bytes(FieldData, name))
    ensures q == p.(state := HeaderField, hs := NameState(LowerName(name)), index := q.index, nread := p.nread + |name|)
  {
    hide Reads, Token, NameState, InsideName;
    var c, more := name[0], name[1..];
    assert c in name && name == [c] + more;
    assert forall d <- more :: d in name;
    var mid := LineFirst(p, c);
    q := NameBytes(mid, [Token(c)], more);
    assert [Token(c)] + LowerName(more) == LowerName(name);
    ReadsCat(p, [c], mid, [FieldByte(c)], more, q, Bytes(FieldData, more));
  }

  lemma ReadValue(p: Parser, v: string) returns (q: Parser)
    requires p.err.Ok? && p.state.HeaderValueStart? && ValueText(p.hs, v) && p.nread + |v| <= MaxHeaderSize
    ensures Reads(p, v, q, Bytes(ValueData, v)) && TracksValue(p, p.hs, v, q)
  {
    hide Reads, ValueText, ValueState;
    assert v != [] by { ValueTextNonempty(p.hs, v); }
    var c, more := v[0], v[1..];
    assert v == [c] + more;
    ValueTextPrefix(p.hs, [c], more);
    var mid := ValueFirst(p, c);
    q := ValueBytes(p, [c], mid, more);
    ReadsCat(p, [c], mid, [ValueByte(c)], more, q, Bytes(ValueData, more));
  }

  lemma ValueTextNonempty(kind: HeaderState, v: string)
    requires ValueText(kind, v)
    ensures v != []
  {
  }

  /** One header line has exactly the effect its name and value mean, and its bytes reach the callbacks. */
  lemma ReadLine(p: Parser, h: Field) returns (q: Parser)
    requires p.err.Ok? && LineStart(p.state) && ValidField(h) && p.nread + |Line(h)| <= MaxHeaderSize
    ensures Reads(p, Line(h), q, Bytes(FieldData, h.name) + Bytes(ValueData, h.value))
    ensures Moved(p, q, HeaderValueLws, |Line(h)|, Effect(MetaOf(p), h))
  {
    hide Reads, Effect, FlagsAfter, ValueState, ValueText, NameState, TokenName;
    var a := ReadName(p, h.name);
    Colon(a);
    var b := a.(state := HeaderValueStart, nread := a.nread + 1);
    Blanks(b, h.space);
    var c := b.(nread := b.nread + |h.space|);
    var names, values := Bytes(FieldData, h.name), Bytes(ValueData, h.value);
    var d;
    if h.value == [] {
      ReadsNothing(c);
      d := c;
      assert Effect(MetaOf(p), h) == MetaOf(p) by { EmptyValue(MetaOf(p), h); }
    } else {
      d := ReadValue(c, h.value);
      EffectAgrees(MetaOf(p), h);
    }
    q := EndOfLine(d);
    ReadsCat(c, h.value, d, values, CRLF, q, []);
    ReadsCat(b, h.space, c, [], h.value + CRLF, q, values);
    ReadsCat(a, ":", b, [], h.space + (h.value + CRLF), q, values);
    ReadsCat(p, h.name, a, names, ":" + (h.space + (h.value + CRLF)), q, values);
  }

  lemma EmptyValue(m: Meta, h: Field)
    requires h.value == []
    ensures Effect(m, h) == m
  {
  }

  lemma {:induction false} ReadLines(p: Parser, fields: seq<Field>) returns (q: Parser)
    requires p.err.Ok? && LineStart(p.state) && p.nread + |Lines(fields)| <= MaxHeaderSize
    requires forall h <- fields :: ValidField(h)
    ensures Reads(p, Lines(fields), q, FieldEvents(fields)) && LineStart(q.state)
    ensures Moved(p, q, q.state, |Lines(fields)|, Effects(MetaOf(p), fields))
    decreases |fields|
  {
    hide Reads, Effect, ValidField, Line;
    if fields == [] {
      ReadsNothing(p);
      return p;
    }
    var h, more := fields[0], fields[1..];
    assert h in fields && forall g <- more :: g in fields;
    var mid := ReadLine(p, h);
    q := ReadLines(mid, more);
    ReadsCat(p, Line(h), mid, Bytes(FieldData, h.name) + Bytes(ValueData, h.value), Lines(more), q, FieldEvents(more));
  }
}
