/** Responses that switch to another protocol, and what cutting them into buffers does. */
module HttpUpgrade {
  import opened HttpMachine
  import opened HttpSafety
  import opened HttpExecute
  import opened HttpSplit
  import opened HttpHeaders
  import opened HttpFraming
  import opened HttpResponse
  import opened HttpBodies
  import opened HttpTheorems

  /** The blank line of a message with an upgrade: both notices come, and parsing stops behind it. */
  lemma BlankLineOfUpgrade(p: Parser)
    requires p.err.Ok? && LineStart(p.state) && p.flags.upgrade && !p.flags.trailing && p.nread + 2 <= MaxHeaderSize
    ensures var r := Fold(p, CRLF);
      r.stopped && r.p.err.Ok? && r.used == 2 && r.ev == [HeadersComplete, MessageComplete]
  {
    hide Fold, Reads, StepByte;
    BlankLineStart(p);
    var mid := p.(state := HeadersAlmostDone, nread := p.nread + 1);
    LineFeedOfUpgrade(mid);
    ReadsIs(p, [CR], mid, []);
    FoldAppend(p, [CR], [LF]);
    FoldOne(mid, LF);
    FoldStops(mid, LF);
    assert [CR] + [LF] == CRLF;
  }

  lemma ReadsIs(p: Parser, data: string, q: Parser, ev: seq<Event>)
    requires Reads(p, data, q, ev)
    ensures Fold(p, data) == Run(q, ev, false, |data|)
  {
  }

  lemma FoldStops(p: Parser, ch: char)
    requires StepByte(p, ch).stopped
    ensures Fold(p, [ch]) == StepByte(p, ch)
  {
    hide StepByte;
  }

  lemma LineFeedOfUpgrade(p: Parser)
    requires p.err.Ok? && p.state.HeadersAlmostDone? && p.flags.upgrade && !p.flags.trailing && p.nread < MaxHeaderSize
    ensures var r := StepByte(p, LF);
      r.stopped && r.p.err.Ok? && r.used == 1 && r.ev == [HeadersComplete, MessageComplete]
  {
    hide NewMessage, SwitchVersion, SwitchStatus, SwitchFieldStart, SwitchField, SwitchHeaderValueStart,
         SwitchHeaderValue, SwitchHeaderLineEnd, SwitchBody;
    var start := p.(nread := p.nread + 1);
    var done := SwitchHeadersEnd(start, LF).p;
    DoneWithUpgrade(done);
    assert Switch(start, LF) == Move(done, NoData, [HeadersComplete], true, false);
    assert [] + [HeadersComplete] + [MessageComplete] == [HeadersComplete, MessageComplete];
  }

  lemma DoneWithUpgrade(p: Parser)
    requires p.err.Ok? && p.state.HeadersDone? && p.upgrade
    ensures var r := Reexecute(p, LF); r.stopped && r.p.err.Ok? && r.used == 1 && r.ev == [MessageComplete]
  {
    hide NewMessage, SwitchVersion, SwitchStatus, SwitchFieldStart, SwitchField, SwitchHeaderValueStart,
         SwitchHeaderValue, SwitchHeaderLineEnd, SwitchBody;
    assert [] + [MessageComplete] == [MessageComplete];
  }

  /** The head of a response with an upgrade is read to its end and not beyond, without error. */
  lemma ReadUpgrade(p: Parser, s: StatusText, fields: seq<Field>)
    requires WellFormedHead(p, s, fields) && Upgrades(fields)
    ensures var r := Fold(p, HeadText(s, fields));
      && r.stopped && r.p.err.Ok? && r.used == |HeadText(s, fields)|
      && r.ev == [MessageBegin] + FieldEvents(fields) + [HeadersComplete, MessageComplete]
  {
    hide Fold, Reads, Text, Lines, HeadText;
    var q := ReadFields(p, s, fields);
    BlankLineOfUpgrade(q);
    HeadTextParts(s, fields);
    ReadsIs(p, Text(s) + Lines(fields), q, [MessageBegin] + FieldEvents(fields));
    FoldAppend(p, Text(s) + Lines(fields), CRLF);
  }

  /** Cutting such a response, with anything behind its head, is invisible if and only if the cut is not right behind
      the head. */
  lemma CutsOfUpgrade(p: Parser, s: StatusText, fields: seq<Field>, rest: string, a: string, b: string)
    requires WellFormedHead(p, s, fields) && Upgrades(fields)
    requires a + b == HeadText(s, fields) + rest && b != []
    ensures TwoCalls(p, a, b) == Fold(p, a + b) <==> a != HeadText(s, fields)
  {
    hide Fold, HeadText, EndsWithUpgrade;
    var head := HeadText(s, fields);
    ReadUpgrade(p, s, fields);
    FoldAppend(p, head, rest);
    FoldAppend(p, a, b);
    SplitIsInvisible(p, a, b);
    if |a| == |head| {
      assert a == (a + b)[..|a|] == head;
    }
  }

  /** Cutting a response without upgrade anywhere is invisible. */
  lemma CutsOfResponse(p: Parser, s: StatusText, fields: seq<Field>, body: Body, a: string, b: string)
    requires ValidHead(p, s, fields)
    requires var m := Effects(FreshMeta, fields); BodyFits(FramingOf(Decimal(s.code), m, p.head), m.length, body)
    requires a + b == HeadText(s, fields) + BodyText(body) && b != []
    ensures TwoCalls(p, a, b) == Fold(p, a + b)
  {
    hide Fold, HeadText, BodyText, ValidStatus, ValidField, Text, Lines, Effects, BodyFits, EndsWithUpgrade;
    var r := ResponseIsDelivered(p, s, fields, body);
    FoldAppend(p, a, b);
    SplitIsInvisible(p, a, b);
  }

  /** A response with `Upgrade: x`, cut right behind its blank line. */
  lemma UpgradeSplits(b: string)
    requires b != []
    ensures var a := "HTTP/1.1 101 X\r\nUpgrade: x\r\n\r\n";
      TwoCalls(Init(false), a, b) != Fold(Init(false), a + b)
  {
    hide Fold;
    var s, h := StatusText("1", "1", "101", " X"), Field("Upgrade", " ", "x");
    UpgradeHead(s, h);
    CutsOfUpgrade(Init(false), s, [h], b, HeadText(s, [h]), b);
  }

  lemma UpgradeHead(s: StatusText, h: Field)
    requires s == StatusText("1", "1", "101", " X") && h == Field("Upgrade", " ", "x")
    ensures WellFormedHead(Init(false), s, [h]) && Upgrades([h])
    ensures HeadText(s, [h]) == "HTTP/1.1 101 X\r\nUpgrade: x\r\n\r\n"
  {
    hide Effects, Effect, ValidField, Number3;
    assert [h][1..] == [];
    SmallNumbers();
    FreshEffects(h);
    assert Lines([h]) == Line(h) + Lines([]);
    assert Line(h) == "Upgrade: x\r\n";
    assert Text(s) == "HTTP/1.1 101 X\r\n";
    UpgradeField(h);
  }

  lemma UpgradeField(h: Field)
    requires h == Field("Upgrade", " ", "x")
    ensures ValidField(h) && Effect(FreshMeta, h).flags.upgrade
  {
    hide LowerName, NameState, TokenName, Decimal, Worded;
    NameInWitness();
    NameKinds(UPGRADE);
  }

  lemma NameInWitness()
    ensures TokenName("Upgrade") && LowerName("Upgrade") == UPGRADE
  {
  }

  lemma FreshEffects(h: Field)
    ensures Effects(FreshMeta, [h]) == Effect(FreshMeta, h)
  {
    hide Effect;
    assert [h][1..] == [];
  }

  lemma SmallNumbers()
    ensures Number3("1") && Number3("101")
  {
    assert "1"[..0] == "" && "10"[..1] == "1" && "101"[..2] == "10";
    assert Decimal("1") == 1 && Decimal("10") == 10;
  }
}
