/** Whether a connection can be used again after a response (section 8.1.2 of RFC 2616). */
module HttpKeepAlive {
  import opened HttpMachine
  import opened HttpSafety
  import opened HttpExecute
  import opened HttpSplit
  import opened HttpHeaders
  import opened HttpFraming
  import opened HttpResponse
  import opened HttpBodies
  import opened HttpTheorems
  import opened HttpLiterals

  /** One of the header lines is a connection header with this word, in any letter case. */
  predicate Says(fields: seq<Field>, word: string) {
    exists h <- fields ::
      h.value != [] && (LowerName(h.name) == "connection" || LowerName(h.name) == "proxy-connection")
      && Worded(h.value, word)
  }

  lemma SaysCons(fields: seq<Field>, word: string)
    requires fields != []
    ensures Says(fields, word) <==> Says([fields[0]], word) || Says(fields[1..], word)
  {
    hide Worded, LowerName;
    assert fields == [fields[0]] + fields[1..];
    assert forall h :: h in fields <==> h == fields[0] || h in fields[1..];
  }

  lemma OneEffect(m: Meta, h: Field)
    ensures var f := Effect(m, h).flags;
      && f.close == (m.flags.close || Says([h], "close"))
      && f.keepAlive == (m.flags.keepAlive || Says([h], "keep-alive"))
      && f.chunked == (m.flags.chunked || f.chunked)
  {
    hide Decimal, LowerName, Worded, Says;
    assert CONNECTION == "connection" && PROXY_CONNECTION == "proxy-connection" && KEEP_ALIVE == "keep-alive";
    NotBoth(h.value);
    SaysOne(h, "close");
    SaysOne(h, "keep-alive");
  }

  lemma SaysOne(h: Field, word: string)
    ensures Says([h], word) <==>
      h.value != [] && (LowerName(h.name) == "connection" || LowerName(h.name) == "proxy-connection")
      && Worded(h.value, word)
  {
    hide Worded, LowerName;
    assert h in [h];
  }

  lemma NotBoth(v: string)
    ensures !(Worded(v, "close") && Worded(v, "keep-alive"))
  {
    hide Worded;
    WordedBegins(v, "close");
    WordedBegins(v, "keep-alive");
  }

  /** The flags tell what the header lines say. */
  lemma {:induction false} EffectsSay(m: Meta, fields: seq<Field>)
    ensures var f := Effects(m, fields).flags;
      && f.close == (m.flags.close || Says(fields, "close"))
      && f.keepAlive == (m.flags.keepAlive || Says(fields, "keep-alive"))
      && (m.flags.chunked ==> f.chunked)
    decreases |fields|
  {
    hide Effect, Says;
    if fields == [] {
      NothingSaid();
    } else {
      OneEffect(m, fields[0]);
      SaysCons(fields, "close");
      SaysCons(fields, "keep-alive");
      EffectsSay(Effect(m, fields[0]), fields[1..]);
    }
  }

  lemma NothingSaid()
    ensures !Says([], "close") && !Says([], "keep-alive")
  {
  }

  lemma SaidAnywhere(a: seq<Field>, b: seq<Field>, word: string)
    ensures Says(a + b, word) <==> Says(a, word) || Says(b, word)
  {
    hide Worded, LowerName;
    assert forall h :: h in a + b <==> h in a || h in b;
  }

  /** After a response that does not last until the end of the connection, the parser expects another one if and only
      if the connection persists: for versions whose two numbers are not 0, unless a header line or a trailer says
      `close`; for all others, only if one says `keep-alive`. */
  lemma ConnectionPersists(p: Parser, s: StatusText, fields: seq<Field>, body: Body)
    requires ValidHead(p, s, fields) && !body.ToEnd?
    requires var m := Effects(FreshMeta, fields); BodyFits(FramingOf(Decimal(s.code), m, p.head), m.length, body)
    ensures var r := Fold(p, HeadText(s, fields) + BodyText(body)); var lines := fields + Trailers(body);
      r.p.state == if (if Decimal(s.major) > 0 && Decimal(s.minor) > 0 then !Says(lines, "close")
                       else Says(lines, "keep-alive")) then StartRes else Dead
  {
    hide Fold, HeadText, BodyText, Effects, Decimal, ValidStatus, ValidField, BodyOf, Completions, Says, SizeLine, ValidChunk;
    var r := ResponseIsDelivered(p, s, fields, body);
    EffectsSay(FreshMeta, fields);
    SaidAnywhere(fields, Trailers(body), "close");
    SaidAnywhere(fields, Trailers(body), "keep-alive");
    NothingSaid();
    var f := Effects(FreshMeta, fields).flags.(skipBody := p.head);
    if body.Chunks? {
      EffectsSay(Meta(f.(trailing := true), 0), body.trailers);
    }
    assert !NeedsEof(r.p);
  }

  /** The four cases of a response without a body. */
  lemma FourResponses()
    ensures var new11, old10, length := "HTTP/1.1 200 OK\r\n", "HTTP/1.0 200 OK\r\n", "Content-Length: 0\r\n";
      && Fold(Init(false), new11 + length + "\r\n").p.state.StartRes?
      && Fold(Init(false), new11 + (length + "Connection: close\r\n") + "\r\n").p.state.Dead?
      && Fold(Init(false), old10 + length + "\r\n").p.state.Dead?
      && Fold(Init(false), old10 + (length + "Connection: keep-alive\r\n") + "\r\n").p.state.StartRes?
  {
    hide Fold, Says, Effects, Lines;
    OnlyLength();
    LengthAnd("close");
    LengthAnd("keep-alive");
    PlainResponse("1", OneField(), "Content-Length: 0\r\n");
    PlainResponse("0", OneField(), "Content-Length: 0\r\n");
    PlainResponse("1", TwoFields("close"), "Content-Length: 0\r\n" + "Connection: close\r\n");
    PlainResponse("0", TwoFields("keep-alive"), "Content-Length: 0\r\n" + "Connection: keep-alive\r\n");
    OkLines();
  }

  lemma OkLines()
    ensures "HTTP/1." + "1" + " 200 OK\r\n" == "HTTP/1.1 200 OK\r\n"
    ensures "HTTP/1." + "0" + " 200 OK\r\n" == "HTTP/1.0 200 OK\r\n"
  {
  }

  function OneField(): seq<Field> {
    [Field("Content-Length", " ", "0")]
  }

  function TwoFields(word: string): seq<Field> {
    [Field("Content-Length", " ", "0"), Field("Connection", " ", word)]
  }

  function PlainText(minor: string, lines: string): string {
    "HTTP/1." + minor + " 200 OK\r\n" + lines + "\r\n"
  }

  /** Header lines of a response without a body. */
  predicate Bodiless(fields: seq<Field>) {
    && (forall h <- fields :: ValidField(h))
    && var m := Effects(FreshMeta, fields); m.length == 0 && !m.flags.chunked && !m.flags.upgrade
  }

  lemma PlainResponse(minor: string, fields: seq<Field>, lines: string)
    requires minor == "0" || minor == "1"
    requires Bodiless(fields) && Lines(fields) == lines && |lines| <= 1000
    ensures Fold(Init(false), PlainText(minor, lines)).p.state
         == if (if minor == "1" then !Says(fields, "close") else Says(fields, "keep-alive")) then StartRes else Dead
  {
    hide Fold, Says, Effects, Lines, ValidField, Text, Decimal, Number3;
    var s := StatusText("1", minor, "200", " OK");
    PlainNumbers();
    Zero();
    PlainStatus(s, minor);
    assert BodyText(Empty) == [] && fields + Trailers(Empty) == fields;
    ConnectionPersists(Init(false), s, fields, Empty);
    PlainHead(s, minor, fields, lines);
  }

  lemma Zero()
    ensures Number3("0") && Decimal("0") == 0
  {
    assert "0"[..0] == "";
  }

  lemma PlainStatus(s: StatusText, minor: string)
    requires s == StatusText("1", minor, "200", " OK") && (minor == "0" || minor == "1")
    ensures |Text(s)| == 17 && forall c <- s.reason :: c != CR && c != LF
    ensures Text(s) == "HTTP/1." + minor + " 200 OK\r\n"
  {
  }

  lemma PlainHead(s: StatusText, minor: string, fields: seq<Field>, lines: string)
    requires Text(s) == "HTTP/1." + minor + " 200 OK\r\n" && Lines(fields) == lines
    ensures HeadText(s, fields) + [] == PlainText(minor, lines)
  {
    hide Text, Lines;
  }

  lemma OnlyLength()
    ensures Bodiless(OneField()) && !Says(OneField(), "close") && !Says(OneField(), "keep-alive")
    ensures Lines(OneField()) == "Content-Length: 0\r\n"
  {
    hide Effect, ValidField, LowerName, Line, Worded;
    var h := OneField()[0];
    LengthField(h);
    HeaderNames();
    OneLine(h);
    assert OneField()[1..] == [];
  }

  lemma LengthAnd(word: string)
    requires word == "close" || word == "keep-alive"
    ensures Bodiless(TwoFields(word)) && Says(TwoFields(word), word)
    ensures Lines(TwoFields(word)) == "Content-Length: 0\r\n" + ("Connection: " + word + "\r\n")
    ensures word == "close" ==> "Connection: " + word + "\r\n" == "Connection: close\r\n"
    ensures word == "keep-alive" ==> "Connection: " + word + "\r\n" == "Connection: keep-alive\r\n"
  {
    hide Effect, ValidField, LowerName, Line, Worded;
    var fields := TwoFields(word);
    var h, g := fields[0], fields[1];
    LengthField(h);
    ConnectionField(g, Effect(FreshMeta, h));
    HeaderNames();
    HeaderValues();
    OneLine(g);
    assert fields[1..] == [g] && [g][1..] == [] && g in fields;
    assert Lines(fields) == Line(h) + Lines([g]);
    assert Effects(FreshMeta, fields) == Effects(Effect(FreshMeta, h), [g]);
    assert Effects(Effect(FreshMeta, h), [g]) == Effect(Effect(FreshMeta, h), g);
  }

  lemma LengthField(h: Field)
    requires h == Field("Content-Length", " ", "0")
    ensures ValidField(h) && Line(h) == "Content-Length: 0\r\n" && Effect(FreshMeta, h) == FreshMeta.(length := 0)
  {
    hide LowerName, NameState, Decimal, Worded, TokenName;
    HeaderNames();
    NameKinds(CONTENT_LENGTH);
    LengthName();
    Zero();
  }

  lemma LengthName()
    ensures TokenName("Content-Length") && TokenName("Connection")
  {
  }

  lemma ConnectionField(h: Field, m: Meta)
    requires h.name == "Connection" && h.space == " " && (h.value == "close" || h.value == "keep-alive")
    ensures ValidField(h) && Line(h) == "Connection: " + h.value + "\r\n"
    ensures var e := Effect(m, h); e.length == m.length && e.flags.chunked == m.flags.chunked && e.flags.upgrade == m.flags.upgrade
  {
    hide LowerName, NameState, Decimal, Worded, TokenName;
    HeaderNames();
    NameKinds(CONNECTION);
    LengthName();
  }
}
