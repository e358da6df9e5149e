/** The characters, digits, words and limits of the protocol, spelled out: whatever the parser's tables call them, these
    are the bytes that a server sends. */
module HttpLiterals {
  import opened HttpMachine
  import opened HttpSafety
  import opened HttpExecute
  import opened HttpSplit
  import opened HttpHeaders
  import opened HttpFraming
  import opened HttpResponse
  import opened HttpBodies
  import opened HttpTheorems

  // ---------------------------------------------------------------- tables

  /** Section 3.6.1 of RFC 2616: the sixteen digits, in either case, and nothing else. */
  lemma HexDigits()
    ensures forall d | 0 <= d < 16 :: Unhex("0123456789ABCDEF"[d]) == d && Unhex("0123456789abcdef"[d]) == d
    ensures forall c :: c !in "0123456789ABCDEFabcdef" ==> Unhex(c) == -1
  {
    forall c | c !in "0123456789ABCDEFabcdef"
      ensures Unhex(c) == -1
    {
      if Unhex(c) != -1 {
        NoHexDigit(c);
      }
    }
  }

  lemma NoHexDigit(c: char)
    requires Unhex(c) != -1
    ensures c in "0123456789ABCDEFabcdef"
  {
    var d := Unhex(c);
    assert c == "0123456789ABCDEF"[d] || c == "0123456789abcdef"[d];
    assert forall i | 0 <= i < 16 :: "0123456789ABCDEF"[i] in "0123456789ABCDEFabcdef";
    assert forall i | 0 <= i < 16 :: "0123456789abcdef"[i] in "0123456789ABCDEFabcdef";
  }

  lemma DecimalDigits()
    ensures forall d | 0 <= d < 10 :: IsNum("0123456789"[d]) && Digit("0123456789"[d]) == d
    ensures forall c | IsNum(c) :: c == "0123456789"[Digit(c)]
  {
  }

  lemma Alphabet()
    ensures forall i | 0 <= i < 26 :: "ABCDEFGHIJKLMNOPQRSTUVWXYZ"[i] as int == 65 + i
    ensures forall i | 0 <= i < 26 :: "abcdefghijklmnopqrstuvwxyz"[i] as int == 97 + i
  {
    UpperLetters();
    LowerLetters();
  }

  lemma UpperLetters()
    ensures forall i | 0 <= i < 26 :: "ABCDEFGHIJKLMNOPQRSTUVWXYZ"[i] as int == 65 + i
  {
  }

  lemma LowerLetters()
    ensures forall i | 0 <= i < 26 :: "abcdefghijklmnopqrstuvwxyz"[i] as int == 97 + i
  {
  }

  /** Section 2.2 of RFC 2616: letters in either case, digits and these marks are token characters, and nothing else. */
  lemma TokenCharacters()
    ensures forall i | 0 <= i < 26 ::
      && Token("ABCDEFGHIJKLMNOPQRSTUVWXYZ"[i]) == "abcdefghijklmnopqrstuvwxyz"[i]
      && Token("abcdefghijklmnopqrstuvwxyz"[i]) == "abcdefghijklmnopqrstuvwxyz"[i]
    ensures forall c | '0' <= c <= '9' || c in "!#$%&'*+-.^_`|~" :: Token(c) == c
    ensures forall c | Token(c) != '\0' ::
      'A' <= c <= 'Z' || 'a' <= c <= 'z' || '0' <= c <= '9' || c in "!#$%&'*+-.^_`|~"
  {
    var up, low := "ABCDEFGHIJKLMNOPQRSTUVWXYZ", "abcdefghijklmnopqrstuvwxyz";
    Alphabet();
    forall i | 0 <= i < 26
      ensures Token(up[i]) == low[i] && Token(low[i]) == low[i]
    {
      TokenLetter(up[i], i);
      TokenLetter(low[i], i);
    }
    OtherTokens();
  }

  lemma TokenLetter(c: char, i: nat)
    requires i < 26 && (c as int == 65 + i || c as int == 97 + i)
    ensures Token(c) as int == 97 + i
  {
  }

  lemma OtherTokens()
    ensures forall c | '0' <= c <= '9' || c in "!#$%&'*+-.^_`|~" :: Token(c) == c
    ensures forall c | Token(c) != '\0' ::
      'A' <= c <= 'Z' || 'a' <= c <= 'z' || '0' <= c <= '9' || c in "!#$%&'*+-.^_`|~"
  {
    MarksAreNoLetters();
  }

  lemma MarksAreNoLetters()
    ensures forall c | c in "!#$%&'*+-.^_`|~" :: !('A' <= c <= 'Z')
  {
  }

  /** Values are compared without regard to the case of letters. */
  lemma LetterCase()
    ensures forall i | 0 <= i < 26 ::
      && Lower("ABCDEFGHIJKLMNOPQRSTUVWXYZ"[i]) == "abcdefghijklmnopqrstuvwxyz"[i]
      && Lower("abcdefghijklmnopqrstuvwxyz"[i]) == "abcdefghijklmnopqrstuvwxyz"[i]
    ensures Lower('-') == '-' && Lower(' ') == ' '
    ensures forall c | 'a' <= Lower(c) <= 'z' :: 'A' <= c <= 'Z' || 'a' <= c <= 'z'
  {
    var up, low := "ABCDEFGHIJKLMNOPQRSTUVWXYZ", "abcdefghijklmnopqrstuvwxyz";
    Alphabet();
    forall i | 0 <= i < 26
      ensures Lower(up[i]) == low[i] && Lower(low[i]) == low[i]
    {
      LowerLetter(up[i], i);
      LowerLetter(low[i], i);
    }
  }

  lemma LowerLetter(c: char, i: nat)
    requires i < 26 && (c as int == 65 + i || c as int == 97 + i)
    ensures Lower(c) as int == 97 + i
  {
  }

  /** What the header lines of a server mean, in the spelling of RFC 2616. */
  lemma HeaderWords(m: Meta)
    ensures Effect(m, Field("Transfer-Encoding", " ", "chunked")) == m.(flags := m.flags.(chunked := true))
    ensures Effect(m, Field("Connection", " ", "close")) == m.(flags := m.flags.(close := true))
    ensures Effect(m, Field("Connection", " ", "keep-alive")) == m.(flags := m.flags.(keepAlive := true))
    ensures Effect(m, Field("Proxy-Connection", " ", "close")) == m.(flags := m.flags.(close := true))
    ensures Effect(m, Field("Upgrade", " ", "h2c")) == m.(flags := m.flags.(upgrade := true))
    ensures Effect(m, Field("Content-Length", " ", "120")) == m.(length := 120)
    ensures Effect(m, Field("Content-Type", " ", "text/html")) == m
  {
    hide LowerName, Worded, Decimal;
    HeaderNames();
    HeaderValues();
    OneHundredTwenty();
  }

  lemma HeaderNames()
    ensures LowerName("Transfer-Encoding") == "transfer-encoding" == TRANSFER_ENCODING
    ensures LowerName("Connection") == "connection" == CONNECTION
    ensures LowerName("Proxy-Connection") == "proxy-connection" == PROXY_CONNECTION
    ensures LowerName("Upgrade") == "upgrade" == UPGRADE
    ensures LowerName("Content-Length") == "content-length" == CONTENT_LENGTH
    ensures LowerName("Content-Type") == "content-type"
  {
    hide Token, LowerName;
    NameTransferEncoding();
    NameConnections();
    NameContents();
  }

  lemma NameTransferEncoding()
    ensures LowerName("Transfer-Encoding") == "transfer-encoding" && LowerName("Upgrade") == "upgrade"
  {
  }

  lemma NameConnections()
    ensures LowerName("Connection") == "connection" && LowerName("Proxy-Connection") == "proxy-connection"
  {
  }

  lemma NameContents()
    ensures LowerName("Content-Length") == "content-length" && LowerName("Content-Type") == "content-type"
  {
  }

  lemma HeaderValues()
    ensures Worded("chunked", CHUNKED) && Worded("close", CLOSE) && Worded("keep-alive", KEEP_ALIVE)
    ensures !Worded("close", KEEP_ALIVE)
  {
    assert LowerAll("chunked") == "chunked" == CHUNKED && "chunked"[..7] == "chunked";
    assert LowerAll("close") == "close" == CLOSE && "close"[..5] == "close";
    assert LowerAll("keep-alive") == "keep-alive" == KEEP_ALIVE && "keep-alive"[..10] == "keep-alive";
  }

  lemma OneHundredTwenty()
    ensures Decimal("120") == 120
  {
    assert "120"[..2] == "12" && "12"[..1] == "1" && "1"[..0] == "";
    assert Decimal("1") == 1 && Decimal("12") == 12;
  }

  /** The limit of the header region is 81920 bytes. */
  lemma HeaderLimit(p: Parser, ch: char)
    requires p.err.Ok? && ParsingHeader(p.state)
    ensures p.nread >= 81920 ==> StepByte(p, ch).stopped && StepByte(p, ch).p.err.HeaderOverflow?
    ensures p.nread < 81920 ==> Count(p).err.Ok?
  {
    hide Reexecute;
  }

  // ---------------------------------------------------------------- numbers as a server prints them

  function PrintedDecimal(n: nat): (s: string)
    ensures s != []
  {
    if n < 10 then ["0123456789"[n]] else PrintedDecimal(n / 10) + ["0123456789"[n % 10]]
  }

  lemma {:induction false} PrintedDecimalIsRead(n: nat)
    ensures Decimal(PrintedDecimal(n)) == n && forall c <- PrintedDecimal(n) :: IsNum(c)
    decreases n
  {
    hide Decimal;
    DecimalDigits();
    if n < 10 {
      DecimalSnoc([], "0123456789"[n]);
      NoDecimal();
      assert [] + ["0123456789"[n]] == ["0123456789"[n]];
    } else {
      PrintedDecimalIsRead(n / 10);
      DecimalSnoc(PrintedDecimal(n / 10), "0123456789"[n % 10]);
    }
  }

  lemma NoDecimal()
    ensures Decimal([]) == 0
  {
  }

  /** A status line as a server prints it, and the numbers that the parser keeps. */
  lemma PrintedStatus(p: Parser, major: nat, minor: nat, code: nat, reason: string)
    requires p.err.Ok? && p.state.StartRes? && major <= 999 && minor <= 999 && code <= 999
    requires forall c <- reason :: c != '\r' && c != '\n'
    requires p.nread + |PrintedDecimal(major)| + |PrintedDecimal(minor)| + |PrintedDecimal(code)| + |reason| + 10 <= 81920
    ensures var line := "HTTP/" + PrintedDecimal(major) + "." + PrintedDecimal(minor) + " " + PrintedDecimal(code) + " "
                        + reason + "\r\n";
      var r := Fold(p, line);
      !r.stopped && r.p.err.Ok? && r.p.major == major && r.p.minor == minor && r.p.status == code
  {
    hide Decimal, Fold, Reads, PrintedDecimal, Text;
    PrintedDecimalIsRead(major);
    PrintedDecimalIsRead(minor);
    PrintedDecimalIsRead(code);
    var s := StatusText(PrintedDecimal(major), PrintedDecimal(minor), PrintedDecimal(code), " " + reason);
    StatusParts(s.major, s.minor, s.code, reason);
    ReadStatus(p, s);
    ReadsAs(p, Text(s), AfterStatus(p, s), [MessageBegin]);
  }

  lemma ReadsAs(p: Parser, data: string, q: Parser, ev: seq<Event>)
    requires Reads(p, data, q, ev)
    ensures Fold(p, data) == Run(q, ev, false, |data|)
  {
  }

  lemma StatusParts(major: string, minor: string, code: string, reason: string)
    ensures Text(StatusText(major, minor, code, " " + reason))
         == "HTTP/" + major + "." + minor + " " + code + " " + reason + "\r\n"
    ensures |Text(StatusText(major, minor, code, " " + reason))| == |major| + |minor| + |code| + |reason| + 10
  {
  }

  function PrintedHex(n: nat, upper: bool): (s: string)
    ensures s != []
  {
    var digits := if upper then "0123456789ABCDEF" else "0123456789abcdef";
    if n < 16 then [digits[n]] else PrintedHex(n / 16, upper) + [digits[n % 16]]
  }

  lemma {:induction false} PrintedHexIsRead(n: nat, upper: bool)
    ensures (forall c <- PrintedHex(n, upper) :: Unhex(c) >= 0) && HexValue(PrintedHex(n, upper)) == n
    decreases n
  {
    hide HexValue, Unhex;
    HexDigits();
    var digits := if upper then "0123456789ABCDEF" else "0123456789abcdef";
    if n < 16 {
      HexSnoc([], digits[n]);
      NoHex();
      assert [] + [digits[n]] == [digits[n]];
    } else {
      PrintedHexIsRead(n / 16, upper);
      HexSnoc(PrintedHex(n / 16, upper), digits[n % 16]);
    }
  }

  lemma NoHex()
    ensures HexValue([]) == 0
  {
  }

  function Power16(k: nat): nat {
    if k == 0 then 1 else 16 * Power16(k - 1)
  }

  lemma {:induction false} PrintedHexLength(n: nat, upper: bool, k: nat)
    requires 0 < k && n < Power16(k)
    ensures |PrintedHex(n, upper)| <= k
    decreases n
  {
    if n >= 16 {
      PrintedHexLength(n / 16, upper, k - 1);
    }
  }

  lemma SixteenDigits()
    ensures Power16(16) == 18446744073709551616
  {
    assert Power16(4) == 65536;
    assert Power16(8) == 4294967296;
    assert Power16(12) == 281474976710656;
  }

  // ---------------------------------------------------------------- chunks as a server prints them

  /** The chunked coding of the pieces, without the last chunk. */
  function PrintedChunks(pieces: seq<string>, upper: bool): string {
    if pieces == [] then ""
    else PrintedHex(|pieces[0]|, upper) + "\r\n" + pieces[0] + "\r\n" + PrintedChunks(pieces[1..], upper)
  }

  function Joined(pieces: seq<string>): string {
    if pieces == [] then "" else pieces[0] + Joined(pieces[1..])
  }

  predicate Sendable(pieces: seq<string>) {
    forall i | 0 <= i < |pieces| :: 0 < |pieces[i]| < 18446744073709551615
  }

  function AsChunk(piece: string, upper: bool): Chunk {
    Chunk(PrintedHex(|piece|, upper), "", piece)
  }

  function AsChunks(pieces: seq<string>, upper: bool): (chunks: seq<Chunk>)
    ensures |chunks| == |pieces|
  {
    if pieces == [] then [] else [AsChunk(pieces[0], upper)] + AsChunks(pieces[1..], upper)
  }

  lemma PrintedChunkIsValid(piece: string, upper: bool)
    requires 0 < |piece| < 18446744073709551615
    ensures ValidChunk(AsChunk(piece, upper))
    ensures ChunkText(AsChunk(piece, upper)) == PrintedHex(|piece|, upper) + "\r\n" + piece + "\r\n"
  {
    hide HexValue, PrintedHex, Unhex, Power16;
    PrintedHexIsRead(|piece|, upper);
    SixteenDigits();
    PrintedHexLength(|piece|, upper, 16);
    assert PrintedHex(|piece|, upper) + "" == PrintedHex(|piece|, upper);
    assert CRLF == "\r\n";
  }

  lemma {:induction false} PrintedChunksAreValid(pieces: seq<string>, upper: bool)
    requires Sendable(pieces)
    ensures var chunks := AsChunks(pieces, upper);
      && (forall c <- chunks :: ValidChunk(c))
      && ChunksText(chunks) == PrintedChunks(pieces, upper) && ChunksData(chunks) == Joined(pieces)
    decreases |pieces|
  {
    hide ValidChunk, ChunkText, PrintedHex;
    if pieces != [] {
      PrintedChunkIsValid(pieces[0], upper);
      PrintedChunksAreValid(pieces[1..], upper);
    }
  }

  /** Pieces whose sizes are printed in hexadecimal by repeated division are read back as they were, in either case of
      the digits. */
  lemma ReadPrintedChunks(p: Parser, pieces: seq<string>, upper: bool)
    requires p.err.Ok? && p.state.ChunkSizeStart? && p.nread == 0 && Sendable(pieces)
    ensures Reads(p, PrintedChunks(pieces, upper), if pieces == [] then p else p.(length := 0),
                  Bytes(BodyData, Joined(pieces)))
  {
    hide Reads, ValidChunk, PrintedChunks, Joined;
    PrintedChunksAreValid(pieces, upper);
    ReadChunks(p, AsChunks(pieces, upper));
  }

  /** A whole response, byte for byte as a server sends it: the body is the pieces, one after the other, and the
      connection can be used again. */
  lemma PrintedResponse(pieces: seq<string>, upper: bool)
    requires Sendable(pieces)
    ensures var text := "HTTP/1.1 200 OK\r\nTransfer-Encoding: chunked\r\n\r\n" + PrintedChunks(pieces, upper) + "0\r\n\r\n";
      var r := Fold(Init(false), text);
      && !r.stopped && r.p.err.Ok? && BodyOf(r.ev) == Joined(pieces)
      && Completions(r.ev) == 1 && r.ev[|r.ev| - 1].MessageComplete? && r.p.state.StartRes?
  {
    hide Fold, BodyOf, Completions, Effect, ValidChunk, PrintedChunks, Joined, ValidStatus, ValidField, Decimal, HexValue,
         SizeLine;
    var s, h := StatusText("1", "1", "200", " OK"), Field("Transfer-Encoding", " ", "chunked");
    var body := Chunks(AsChunks(pieces, upper), "0", "", []);
    PrintedChunksAreValid(pieces, upper);
    ChunkedHead(s, h);
    LastSize();
    var r := ResponseIsDelivered(Init(false), s, [h], body);
    ResponseText(s, h, pieces, upper);
    StaysOpen(r.p);
  }

  lemma StaysOpen(p: Parser)
    requires p.state == NewMessage(p) && p.major == 1 && p.minor == 1 && !p.flags.close && p.flags.chunked
    ensures p.state.StartRes?
  {
  }

  lemma LastSize()
    ensures SizeLine("0", "", 0)
  {
    hide Unhex;
    HexDigits();
    assert "0" == ["0123456789ABCDEF"[0]] && "0"[..0] == "";
    PrintedHexIsRead(0, true);
  }

  lemma ChunkedHead(s: StatusText, h: Field)
    requires s == StatusText("1", "1", "200", " OK") && h == Field("Transfer-Encoding", " ", "chunked")
    ensures ValidHead(Init(false), s, [h])
    ensures Effects(FreshMeta, [h]) == FreshMeta.(flags := FreshMeta.flags.(chunked := true))
    ensures Decimal(s.major) == 1 && Decimal(s.minor) == 1 && Decimal(s.code) == 200
  {
    hide Effect, Effects, ValidField, Decimal, LowerName, Number3, Text, Lines;
    HeaderWords(FreshMeta);
    OneField(h);
    PlainNumbers();
    ChunkedField(h);
    OkLine(s);
    ChunkedLength(s, h);
  }

  lemma OneField(h: Field)
    ensures Effects(FreshMeta, [h]) == Effect(FreshMeta, h)
  {
    hide Effect;
    assert [h][1..] == [];
  }

  lemma ChunkedLength(s: StatusText, h: Field)
    requires s == StatusText("1", "1", "200", " OK") && h == Field("Transfer-Encoding", " ", "chunked")
    ensures |Text(s)| + |Lines([h])| <= 100
    ensures HeadText(s, [h]) == "HTTP/1.1 200 OK\r\nTransfer-Encoding: chunked\r\n\r\n"
  {
    hide Text, Line;
    OneLine(h);
    ChunkedLine(h);
    OkLine(s);
    assert "HTTP/1.1 200 OK\r\n" + ("Transfer-Encoding: chunked\r\n" + CRLF)
        == "HTTP/1.1 200 OK\r\nTransfer-Encoding: chunked\r\n\r\n";
  }

  lemma OneLine(h: Field)
    ensures Lines([h]) == Line(h)
  {
    assert [h][1..] == [];
    assert Line(h) + [] == Line(h);
  }

  lemma ChunkedLine(h: Field)
    requires h == Field("Transfer-Encoding", " ", "chunked")
    ensures Line(h) == "Transfer-Encoding: chunked\r\n"
  {
  }

  lemma OkLine(s: StatusText)
    requires s == StatusText("1", "1", "200", " OK")
    ensures Text(s) == "HTTP/1.1 200 OK\r\n" && (s.reason[0] == ' ' && forall c <- s.reason :: c != CR && c != LF)
  {
  }

  lemma ChunkedField(h: Field)
    requires h == Field("Transfer-Encoding", " ", "chunked")
    ensures ValidField(h)
  {
    hide LowerName, NameState, Decimal, Worded;
    HeaderNames();
    NameKinds(TRANSFER_ENCODING);
    TokenLetters();
  }

  lemma TokenLetters()
    ensures TokenName("Transfer-Encoding")
  {
  }

  lemma PlainNumbers()
    ensures Number3("1") && Number3("200") && Decimal("1") == 1 && Decimal("200") == 200
  {
    assert "200"[..2] == "20" && "20"[..1] == "2" && "2"[..0] == "" && "1"[..0] == "";
    assert Decimal("2") == 2 && Decimal("20") == 20;
  }

  lemma ResponseText(s: StatusText, h: Field, pieces: seq<string>, upper: bool)
    requires s == StatusText("1", "1", "200", " OK") && h == Field("Transfer-Encoding", " ", "chunked")
    requires ChunksText(AsChunks(pieces, upper)) == PrintedChunks(pieces, upper)
    ensures HeadText(s, [h]) + BodyText(Chunks(AsChunks(pieces, upper), "0", "", []))
         == "HTTP/1.1 200 OK\r\nTransfer-Encoding: chunked\r\n\r\n" + PrintedChunks(pieces, upper) + "0\r\n\r\n"
  {
    hide HeadText, PrintedChunks, ChunksText;
    ChunkedLength(s, h);
    assert "0" + "" + CRLF + (Lines([]) + CRLF) == "0\r\n\r\n";
  }
}
