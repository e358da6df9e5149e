/** The Content-Length header: which numbers the parser keeps, on whole header lines. */
module HttpLengths {
  import opened HttpMachine
  import opened HttpSafety
  import opened HttpExecute
  import opened HttpSplit
  import opened HttpHeaders
  import opened HttpFraming
  import opened HttpResponse

  /** What the parser's arithmetic makes of a value: the number it arrives at, and whether it accepts the value. */
  function KeptLength(v: string): (nat, bool)
    requires v != []
    decreases |v|
  {
    var last := v[|v| - 1];
    if |v| == 1 then if IsNum(last) then (Digit(last), true) else (0, false)
    else
      var (length, kept) := KeptLength(v[..|v| - 1]);
      if !kept || last == ' ' then (length, kept)
      else if IsNum(last) then AddDigit(length, 10, Digit(last))
      else (length, false)
  }

  lemma KeptSnoc(v: string, ch: char)
    requires v != []
    ensures var (length, kept) := KeptLength(v);
      KeptLength(v + [ch]) == if !kept || ch == ' ' then (length, kept)
                              else if IsNum(ch) then AddDigit(length, 10, Digit(ch)) else (length, false)
  {
    assert (v + [ch])[..|v|] == v;
  }

  lemma {:induction false} KeptInRange(v: string)
    requires v != []
    ensures KeptLength(v).1 ==> KeptLength(v).0 < NoLength
    decreases |v|
  {
    if |v| > 1 {
      KeptInRange(v[..|v| - 1]);
    }
  }

  /** Of digits and spaces exactly the numbers below 2^64 - 1 are kept as themselves; anything else is refused. */
  lemma {:induction false} KeptExactly(v: string)
    requires v != []
    ensures KeptLength(v) == (Decimal(v), true) <==> LengthText(v) && Decimal(v) < NoLength
    ensures KeptLength(v).1 ==> LengthText(v)
    decreases |v|
  {
    hide AddDigit;
    var w, c := v[..|v| - 1], v[|v| - 1];
    assert c in v && v == w + [c];
    if |v| == 1 {
      assert w == [];
    } else {
      KeptExactly(w);
      KeptInRange(w);
      KeptSnoc(w, c);
      DecimalSnoc(w, c);
      LengthTextSnoc(w, c);
      if IsNum(c) {
        AddDigitInRange(KeptLength(w).0, 10, Digit(c));
        if Decimal(v) < NoLength {
          AddDigitExact(Decimal(w), 10, Digit(c));
        }
      }
    }
  }

  lemma LengthTextSnoc(w: string, c: char)
    requires w != []
    ensures LengthText(w + [c]) <==> LengthText(w) && (IsNum(c) || c == ' ')
  {
    assert forall d <- w :: d in w + [c];
    assert c in w + [c];
  }

  // ---------------------------------------------------------------- the parser on such a value

  lemma FailingByte(p: Parser, ch: char)
    requires p.err.Ok? && ParsingHeader(p.state) && p.nread < MaxHeaderSize
    requires !Switch(p.(nread := p.nread + 1), ch).p.err.Ok?
    ensures Fold(p, [ch]).stopped && Fold(p, [ch]).p == Switch(p.(nread := p.nread + 1), ch).p
  {
    hide Switch;
  }

  lemma FirstLengthByte(p: Parser, ch: char)
    requires p.err.Ok? && p.state.HeaderValueStart? && p.hs.ContentLength? && p.nread < MaxHeaderSize
    requires ch != ' ' && ch != '\t' && ch != CR && ch != LF
    ensures IsNum(ch) ==>
        Reads(p, [ch], p.(state := HeaderValue, index := 0, nread := p.nread + 1, length := Digit(ch)), [ValueByte(ch)])
    ensures !IsNum(ch) ==> Fold(p, [ch]).stopped && Fold(p, [ch]).p.err.InvalidContentLength?
  {
    hide Reads, Fold, Lower, SwitchVersion, SwitchStatus, SwitchFieldStart, SwitchField, SwitchHeaderValue,
         SwitchHeaderLineEnd, SwitchHeadersEnd, SwitchBody;
    if IsNum(ch) {
      HeaderByte(p, ch);
    } else {
      FailingByte(p, ch);
    }
  }

  lemma LengthByte(p: Parser, ch: char)
    requires p.err.Ok? && p.state.HeaderValue? && p.hs.ContentLength? && p.nread < MaxHeaderSize
    requires ch != CR && ch != LF
    ensures ch == ' ' ==> Reads(p, [ch], p.(nread := p.nread + 1), [ValueByte(ch)])
    ensures IsNum(ch) ==>
      var (t, fits) := AddDigit(p.length, 10, Digit(ch));
      if fits then Reads(p, [ch], p.(nread := p.nread + 1, length := t), [ValueByte(ch)])
      else Fold(p, [ch]).stopped && Fold(p, [ch]).p.err.InvalidContentLength?
    ensures ch != ' ' && !IsNum(ch) ==> Fold(p, [ch]).stopped && Fold(p, [ch]).p.err.InvalidContentLength?
  {
    hide Reads, Fold, AddDigit, SwitchVersion, SwitchStatus, SwitchFieldStart, SwitchField, SwitchHeaderValueStart,
         SwitchHeaderLineEnd, SwitchHeadersEnd, SwitchBody;
    if ch == ' ' || (IsNum(ch) && AddDigit(p.length, 10, Digit(ch)).1) {
      HeaderByte(p, ch);
    } else {
      FailingByte(p, ch);
    }
  }

  /** The parser inside the value `v`, begun in `p`. */
  function InLength(p: Parser, v: string): Parser
    requires v != []
  {
    p.(state := HeaderValue, index := 0, nread := p.nread + |v|, length := KeptLength(v).0)
  }

  /** The parser keeps what the arithmetic keeps, and refuses what it refuses. */
  lemma {:induction false} ReadLengthValue(p: Parser, v: string)
    requires p.err.Ok? && p.state.HeaderValueStart? && p.hs.ContentLength? && p.nread + |v| <= MaxHeaderSize
    requires v != [] && v[0] != ' ' && v[0] != '\t' && forall c <- v :: c != CR && c != LF
    ensures KeptLength(v).1 ==> Reads(p, v, InLength(p, v), Bytes(ValueData, v))
    ensures !KeptLength(v).1 ==> Fold(p, v).stopped && Fold(p, v).p.err.InvalidContentLength?
    decreases |v|
  {
    hide Reads, Fold, AddDigit;
    var w, c := v[..|v| - 1], v[|v| - 1];
    assert c in v && v == w + [c];
    if |v| == 1 {
      assert v == [c];
      FirstLengthByte(p, c);
      OneMoreByte([], c);
    } else {
      assert forall d <- w :: d in v;
      ReadLengthValue(p, w);
      KeptSnoc(w, c);
      if KeptLength(w).1 {
        LengthByte(InLength(p, w), c);
        if KeptLength(v).1 {
          ReadsCat(p, w, InLength(p, w), Bytes(ValueData, w), [c], InLength(p, v), [ValueByte(c)]);
          OneMoreByte(w, c);
        } else {
          StopsLater(p, w, InLength(p, w), Bytes(ValueData, w), [c]);
        }
      } else {
        StopsAtOnce(p, w, [c]);
      }
    }
  }

  lemma OneMoreByte(w: string, c: char)
    ensures Bytes(ValueData, w + [c]) == Bytes(ValueData, w) + [ValueByte(c)]
    ensures Bytes(ValueData, [c]) == [ValueByte(c)]
  {
    BytesAppend(ValueData, w, [c]);
    assert Bytes(ValueData, [c]) == ByteEvents(ValueData, c);
  }

  /** A run that stops in the second part of its input. */
  lemma StopsLater(p: Parser, a: string, q: Parser, ev: seq<Event>, b: string)
    requires Reads(p, a, q, ev) && Fold(q, b).stopped
    ensures Fold(p, a + b).stopped && Fold(p, a + b).p == Fold(q, b).p
  {
    hide Fold;
    FoldAppend(p, a, b);
  }

  lemma StopsAtOnce(p: Parser, a: string, b: string)
    requires Fold(p, a).stopped
    ensures Fold(p, a + b) == Fold(p, a)
  {
    hide Fold;
    FoldAppend(p, a, b);
  }

  /** A Content-Length line with a value. */
  predicate LengthLine(h: Field) {
    && TokenName(h.name) && LowerName(h.name) == CONTENT_LENGTH
    && (forall c <- h.space :: c == ' ' || c == '\t')
    && h.value != [] && h.value[0] != ' ' && h.value[0] != '\t' && forall c <- h.value :: c != CR && c != LF
  }

  /** The whole line: the length kept is the arithmetic's, and a value it refuses is an error. */
  lemma ReadLengthLine(p: Parser, h: Field)
    requires p.err.Ok? && LineStart(p.state) && LengthLine(h) && p.nread + |Line(h)| <= MaxHeaderSize
    ensures var r := Fold(p, Line(h)); var (length, kept) := KeptLength(h.value);
      if kept then !r.stopped && r.p.err.Ok? && r.p.length == length
      else r.stopped && r.p.err.InvalidContentLength?
  {
    hide Reads, Fold, NameState, TokenName, LowerName, KeptLength;
    NameKinds(LowerName(h.name));
    var a := ReadName(p, h.name);
    Colon(a);
    var b := a.(state := HeaderValueStart, nread := a.nread + 1);
    Blanks(b, h.space);
    var c := b.(nread := b.nread + |h.space|);
    var names := Bytes(FieldData, h.name);
    ReadLengthValue(c, h.value);
    if KeptLength(h.value).1 {
      var d := InLength(c, h.value);
      var q := EndOfLine(d);
      var values := Bytes(ValueData, h.value);
      ReadsCat(c, h.value, d, values, CRLF, q, []);
      ReadsCat(b, h.space, c, [], h.value + CRLF, q, values);
      ReadsCat(a, ":", b, [], h.space + (h.value + CRLF), q, values);
      ReadsCat(p, h.name, a, names, ":" + (h.space + (h.value + CRLF)), q, values);
      ReadsIs(p, Line(h), q, names + values);
    } else {
      StopsAtOnce(c, h.value, CRLF);
      StopsLater(b, h.space, c, [], h.value + CRLF);
      StopsLater(a, ":", b, [], h.space + (h.value + CRLF));
      StopsLater(p, h.name, a, names, ":" + (h.space + (h.value + CRLF)));
    }
  }

  lemma ReadsIs(p: Parser, data: string, q: Parser, ev: seq<Event>)
    requires Reads(p, data, q, ev)
    ensures Fold(p, data) == Run(q, ev, false, |data|)
  {
  }

  /** The parser takes a Content-Length for what it says if and only if it is digits, with spaces behind the first one,
      that spell a number below 2^64 - 1. */
  lemma LengthIsExact(p: Parser, h: Field)
    requires p.err.Ok? && LineStart(p.state) && LengthLine(h) && p.nread + |Line(h)| <= MaxHeaderSize
    ensures var r := Fold(p, Line(h));
      r.p.err.Ok? && r.p.length == Decimal(h.value) <==> LengthText(h.value) && Decimal(h.value) < 18446744073709551615
    ensures var r := Fold(p, Line(h));
      r.p.err.Ok? ==> !r.stopped && LengthText(h.value) && r.p.length < 18446744073709551615
  {
    hide Fold, Line, Decimal, LengthText, KeptLength;
    ReadLengthLine(p, h);
    KeptExactly(h.value);
    KeptInRange(h.value);
  }

  // ---------------------------------------------------------------- a missed overflow

  function Zeros(k: nat): (s: string)
    ensures |s| == k && forall c <- s :: c == '0'
  {
    if k == 0 then "" else Zeros(k - 1) + "0"
  }

  function Pow10(k: nat): nat {
    if k == 0 then 1 else 10 * Pow10(k - 1)
  }

  lemma PowersOfTen()
    ensures Pow10(18) == 1000000000000000000 && Pow10(19) == 10000000000000000000
  {
    assert Pow10(2) == 100;
    assert Pow10(4) == 10000;
    assert Pow10(6) == 1000000;
    assert Pow10(8) == 100000000;
    assert Pow10(10) == 10000000000;
    assert Pow10(12) == 1000000000000;
    assert Pow10(14) == 100000000000000;
    assert Pow10(16) == 10000000000000000;
  }

  lemma {:induction false} ThreeAndZeros(k: nat)
    ensures LengthText("3" + Zeros(k)) && Decimal("3" + Zeros(k)) == 3 * Pow10(k)
  {
    if k == 0 {
      assert "3" + "" == "3" && Decimal("3"[..0]) == 0;
    } else {
      ThreeAndZeros(k - 1);
      assert "3" + Zeros(k) == "3" + Zeros(k - 1) + ['0'];
      DecimalSnoc("3" + Zeros(k - 1), '0');
    }
  }

  /** 3 * 10^19, one more zero than still fits, wraps around to a larger number than 3 * 10^18. */
  lemma WrapsAround()
    ensures KeptLength("3" + Zeros(19)) == (11553255926290448384, true)
    ensures Decimal("3" + Zeros(19)) == 30000000000000000000
  {
    hide Zeros, Decimal, KeptLength, Pow10;
    ThreeAndZeros(18);
    ThreeAndZeros(19);
    KeptExactly("3" + Zeros(18));
    PowersOfTen();
    OneMoreZero(18);
    KeptSnoc("3" + Zeros(18), '0');
    ThirtyTrillionMillion();
  }

  lemma OneMoreZero(k: nat)
    ensures "3" + Zeros(k + 1) == "3" + Zeros(k) + ['0']
  {
  }

  lemma ThirtyTrillionMillion()
    ensures AddDigit(3000000000000000000, 10, 0) == (11553255926290448384, true)
  {
  }

  /** Above the range the overflow test can miss: a line with 3 followed by 19 zeros is accepted as another length. */
  lemma OverflowIsMissed(p: Parser, h: Field)
    requires p.err.Ok? && LineStart(p.state) && LengthLine(h) && p.nread + |Line(h)| <= MaxHeaderSize
    requires h.value == "3" + Zeros(19)
    ensures var r := Fold(p, Line(h));
      !r.stopped && r.p.err.Ok? && r.p.length == 11553255926290448384 && r.p.length != Decimal(h.value)
  {
    hide Fold, Line, Decimal, Zeros, KeptLength;
    ReadLengthLine(p, h);
    WrapsAround();
  }

  /** There is such a line, and it can follow any status line. */
  lemma SuchALine(p: Parser, s: StatusText) returns (h: Field)
    requires p.err.Ok? && p.state.StartRes? && ValidStatus(s) && p.nread + |Text(s)| + 40 <= MaxHeaderSize
    ensures LengthLine(h) && h.value == "3" + Zeros(19)
    ensures var r := Fold(p, Text(s) + Line(h)); !r.stopped && r.p.err.Ok? && r.p.length == 11553255926290448384
  {
    hide Fold, Reads, Text, KeptLength, Decimal, ValidStatus, Zeros;
    h := Field("content-length", " ", "3" + Zeros(19));
    SmallLetters();
    ReadStatus(p, s);
    var a := AfterStatus(p, s);
    OverflowIsMissed(a, h);
    ReadsIs(p, Text(s), a, [MessageBegin]);
    FoldAppend(p, Text(s), Line(h));
  }

  lemma SmallLetters()
    ensures TokenName("content-length") && LowerName("content-length") == CONTENT_LENGTH
  {
  }
}
