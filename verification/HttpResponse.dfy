/** Whole responses, from the status line to the end of the body (section 4.4 of RFC 2616). */
module HttpResponse {
  import opened HttpMachine
  import opened HttpSafety
  import opened HttpExecute
  import opened HttpSplit
  import opened HttpHeaders
  import opened HttpFraming

  // ---------------------------------------------------------------- status line

  /** `reason` is empty or begins with a space. */
  datatype StatusText = StatusText(major: string, minor: string, code: string, reason: string)

  predicate Number3(s: string) {
    s != [] && (forall c <- s :: IsNum(c)) && Decimal(s) <= 999
  }

  predicate ValidStatus(s: StatusText) {
    && Number3(s.major) && Number3(s.minor) && Number3(s.code)
    && (s.reason != [] ==> s.reason[0] == ' ')
    && forall c <- s.reason :: c != CR && c != LF
  }

  function Text(s: StatusText): string {
    "HTTP/" + (s.major + ("." + (s.minor + (" " + (s.code + (s.reason + CRLF))))))
  }

  /** A byte of the protocol version. */
  lemma VersionByte(p: Parser, ch: char, q: Parser)
    requires p.err.Ok? && VersionState(p.state) && p.nread < MaxHeaderSize && q.err.Ok?
    requires SwitchVersion(p.(nread := p.nread + 1), ch) == Go(q)
    ensures Reads(p, [ch], q, [])
  {
    hide Reads, SwitchVersion, SwitchStatus, SwitchFieldStart, SwitchField, SwitchHeaderValueStart, SwitchHeaderValue,
         SwitchHeaderLineEnd, SwitchHeadersEnd, SwitchBody;
    HeaderByte(p, ch);
  }

  /** A byte of the status code, the reason or the end of the status line. */
  lemma StatusByte(p: Parser, ch: char, q: Parser)
    requires p.err.Ok? && StatusState(p.state) && p.nread < MaxHeaderSize && q.err.Ok?
    requires SwitchStatus(p.(nread := p.nread + 1), ch) == Go(q)
    ensures Reads(p, [ch], q, [])
  {
    hide Reads, SwitchVersion, SwitchStatus, SwitchFieldStart, SwitchField, SwitchHeaderValueStart, SwitchHeaderValue,
         SwitchHeaderLineEnd, SwitchHeadersEnd, SwitchBody;
    HeaderByte(p, ch);
  }

  lemma Protocol(p: Parser)
    requires p.err.Ok? && p.state.StartRes? && p.nread + 5 <= MaxHeaderSize
    ensures Reads(p, "HTTP/", p.(state := FirstHttpMajor, nread := p.nread + 5, flags := NoFlags, length := NoLength),
                  [MessageBegin])
  {
    hide Reads, SwitchStatus, SwitchFieldStart, SwitchField, SwitchHeaderValueStart, SwitchHeaderValue,
         SwitchHeaderLineEnd, SwitchHeadersEnd, SwitchBody;
    var a := p.(state := ResH, nread := p.nread + 1, flags := NoFlags, length := NoLength);
    HeaderByte(p, 'H');
    ProtocolRest(a);
    ReadsCat(p, "H", a, [MessageBegin], "TTP/", a.(state := FirstHttpMajor, nread := a.nread + 4), []);
    assert "H" + "TTP/" == "HTTP/";
  }

  lemma ProtocolRest(a: Parser)
    requires a.err.Ok? && a.state.ResH? && a.nread + 4 <= MaxHeaderSize
    ensures Reads(a, "TTP/", a.(state := FirstHttpMajor, nread := a.nread + 4), [])
  {
    hide Reads, Switch;
    var b := a.(state := ResHT, nread := a.nread + 1);
    var c := b.(state := ResHTT, nread := b.nread + 1);
    var d := c.(state := ResHTTP, nread := c.nread + 1);
    var e := d.(state := FirstHttpMajor, nread := d.nread + 1);
    VersionByte(a, 'T', b);
    VersionByte(b, 'T', c);
    VersionByte(c, 'P', d);
    VersionByte(d, '/', e);
    ReadsCat(a, "T", b, [], "T", c, []);
    ReadsCat(a, "T" + "T", c, [], "P", d, []);
    ReadsCat(a, "T" + "T" + "P", d, [], "/", e, []);
    assert "T" + "T" + "P" + "/" == "TTP/";
  }

  lemma {:induction false} MajorDigits(p: Parser, done: string, rest: string)
    requires p.err.Ok? && p.state.HttpMajor? && p.nread + |rest| <= MaxHeaderSize
    requires p.major == Decimal(done) && Decimal(done + rest) <= 999 && forall c <- rest :: IsNum(c)
    ensures Reads(p, rest, p.(major := Decimal(done + rest), nread := p.nread + |rest|), [])
    decreases |rest|
  {
    hide Reads, Decimal, Switch;
    if rest == [] {
      ReadsNothing(p);
      assert done + rest == done;
    } else {
      var c, more := rest[0], rest[1..];
      assert c in rest && rest == [c] + more && done + rest == done + [c] + more;
      assert forall d <- more :: d in rest;
      DecimalSnoc(done, c);
      DecimalGrows(done + [c], more);
      var mid := p.(major := Decimal(done + [c]), nread := p.nread + 1);
      VersionByte(p, c, mid);
      MajorDigits(mid, done + [c], more);
      ReadsCat(p, [c], mid, [], more, mid.(major := Decimal(done + rest), nread := mid.nread + |more|), []);
    }
  }

  lemma {:induction false} MinorDigits(p: Parser, done: string, rest: string)
    requires p.err.Ok? && p.state.HttpMinor? && p.nread + |rest| <= MaxHeaderSize
    requires p.minor == Decimal(done) && Decimal(done + rest) <= 999 && forall c <- rest :: IsNum(c)
    ensures Reads(p, rest, p.(minor := Decimal(done + rest), nread := p.nread + |rest|), [])
    decreases |rest|
  {
    hide Reads, Decimal, Switch;
    if rest == [] {
      ReadsNothing(p);
      assert done + rest == done;
    } else {
      var c, more := rest[0], rest[1..];
      assert c in rest && rest == [c] + more && done + rest == done + [c] + more;
      assert forall d <- more :: d in rest;
      DecimalSnoc(done, c);
      DecimalGrows(done + [c], more);
      var mid := p.(minor := Decimal(done + [c]), nread := p.nread + 1);
      VersionByte(p, c, mid);
      MinorDigits(mid, done + [c], more);
      ReadsCat(p, [c], mid, [], more, mid.(minor := Decimal(done + rest), nread := mid.nread + |more|), []);
    }
  }

  lemma {:induction false} CodeDigits(p: Parser, done: string, rest: string)
    requires p.err.Ok? && p.state.StatusCode? && p.nread + |rest| <= MaxHeaderSize
    requires p.status == Decimal(done) && Decimal(done + rest) <= 999 && forall c <- rest :: IsNum(c)
    ensures Reads(p, rest, p.(status := Decimal(done + rest), nread := p.nread + |rest|), [])
    decreases |rest|
  {
    hide Reads, Decimal, Switch;
    if rest == [] {
      ReadsNothing(p);
      assert done + rest == done;
    } else {
      var c, more := rest[0], rest[1..];
      assert c in rest && rest == [c] + more && done + rest == done + [c] + more;
      assert forall d <- more :: d in rest;
      DecimalSnoc(done, c);
      DecimalGrows(done + [c], more);
      var mid := p.(status := Decimal(done + [c]), nread := p.nread + 1);
      StatusByte(p, c, mid);
      CodeDigits(mid, done + [c], more);
      ReadsCat(p, [c], mid, [], more, mid.(status := Decimal(done + rest), nread := mid.nread + |more|), []);
    }
  }

  lemma FirstDigit(s: string)
    requires Number3(s)
    ensures IsNum(s[0]) && s == [s[0]] + s[1..] && Decimal([s[0]]) == Digit(s[0])
    ensures forall c <- s[1..] :: IsNum(c)
  {
    assert s[0] in s;
    assert forall c <- s[1..] :: c in s;
    assert Decimal([s[0]][..0]) == 0;
  }

  lemma ReadMajor(p: Parser, s: string)
    requires p.err.Ok? && p.state.FirstHttpMajor? && p.nread + |s| <= MaxHeaderSize && Number3(s)
    ensures Reads(p, s, p.(state := HttpMajor, major := Decimal(s), nread := p.nread + |s|), [])
  {
    hide Reads, Decimal, Switch;
    FirstDigit(s);
    var mid := p.(state := HttpMajor, major := Digit(s[0]), nread := p.nread + 1);
    VersionByte(p, s[0], mid);
    MajorDigits(mid, [s[0]], s[1..]);
    ReadsCat(p, [s[0]], mid, [], s[1..], mid.(major := Decimal(s), nread := p.nread + |s|), []);
  }

  lemma ReadMinor(p: Parser, s: string)
    requires p.err.Ok? && p.state.FirstHttpMinor? && p.nread + |s| <= MaxHeaderSize && Number3(s)
    ensures Reads(p, s, p.(state := HttpMinor, minor := Decimal(s), nread := p.nread + |s|), [])
  {
    hide Reads, Decimal, Switch;
    FirstDigit(s);
    var mid := p.(state := HttpMinor, minor := Digit(s[0]), nread := p.nread + 1);
    VersionByte(p, s[0], mid);
    MinorDigits(mid, [s[0]], s[1..]);
    ReadsCat(p, [s[0]], mid, [], s[1..], mid.(minor := Decimal(s), nread := p.nread + |s|), []);
  }

  lemma ReadCode(p: Parser, s: string)
    requires p.err.Ok? && p.state.FirstStatusCode? && p.nread + |s| <= MaxHeaderSize && Number3(s)
    ensures Reads(p, s, p.(state := StatusCode, status := Decimal(s), nread := p.nread + |s|), [])
  {
    hide Reads, Decimal, Switch;
    FirstDigit(s);
    var mid := p.(state := StatusCode, status := Digit(s[0]), nread := p.nread + 1);
    StatusByte(p, s[0], mid);
    CodeDigits(mid, [s[0]], s[1..]);
    ReadsCat(p, [s[0]], mid, [], s[1..], mid.(status := Decimal(s), nread := p.nread + |s|), []);
  }

  lemma {:induction false} ReadReason(p: Parser, s: string)
    requires p.err.Ok? && p.state.Status? && p.nread + |s| <= MaxHeaderSize
    requires forall c <- s :: c != CR && c != LF
    ensures Reads(p, s, p.(nread := p.nread + |s|), [])
    decreases |s|
  {
    hide Reads, Switch;
    if s == [] {
      ReadsNothing(p);
    } else {
      var c, more := s[0], s[1..];
      assert c in s && s == [c] + more;
      assert forall d <- more :: d in s;
      var mid := p.(nread := p.nread + 1);
      StatusByte(p, c, mid);
      ReadReason(mid, more);
      ReadsCat(p, [c], mid, [], more, mid.(nread := mid.nread + |more|), []);
    }
  }

  lemma EndOfStatus(p: Parser)
    requires p.err.Ok? && (p.state.Status? || p.state.StatusCode?) && p.nread + 2 <= MaxHeaderSize
    ensures Reads(p, CRLF, p.(state := HeaderFieldStart, nread := p.nread + 2), [])
  {
    hide Reads, Switch;
    StatusByte(p, CR, p.(state := LineAlmostDone, nread := p.nread + 1));
    var mid := p.(state := LineAlmostDone, nread := p.nread + 1);
    StatusByte(mid, LF, p.(state := HeaderFieldStart, nread := p.nread + 2));
    ReadsCat(p, [CR], mid, [], [LF], p.(state := HeaderFieldStart, nread := p.nread + 2), []);
    assert [CR] + [LF] == CRLF;
  }

  lemma ReasonAndEnd(p: Parser, reason: string)
    requires p.err.Ok? && p.state.StatusCode? && p.nread + |reason| + 2 <= MaxHeaderSize
    requires (reason != [] ==> reason[0] == ' ') && forall c <- reason :: c != CR && c != LF
    ensures Reads(p, reason + CRLF, p.(state := HeaderFieldStart, nread := p.nread + |reason| + 2), [])
  {
    hide Reads, Switch;
    if reason == [] {
      EndOfStatus(p);
      assert reason + CRLF == CRLF;
    } else {
      StatusByte(p, ' ', p.(state := Status, nread := p.nread + 1));
      var mid := p.(state := Status, nread := p.nread + 1);
      assert reason == [' '] + reason[1..];
      assert forall d <- reason[1..] :: d in reason;
      ReadReason(mid, reason[1..]);
      ReadsCat(p, [' '], mid, [], reason[1..], mid.(nread := p.nread + |reason|), []);
      var end := mid.(nread := p.nread + |reason|);
      EndOfStatus(end);
      ReadsCat(p, reason, end, [], CRLF, p.(state := HeaderFieldStart, nread := p.nread + |reason| + 2), []);
    }
  }

  /** The parser after a status line. */
  function AfterStatus(p: Parser, s: StatusText): Parser {
    p.(state := HeaderFieldStart, nread := p.nread + |Text(s)|, flags := NoFlags, length := NoLength,
       major := Decimal(s.major), minor := Decimal(s.minor), status := Decimal(s.code))
  }

  lemma ReadStatus(p: Parser, s: StatusText)
    requires p.err.Ok? && p.state.StartRes? && ValidStatus(s) && p.nread + |Text(s)| <= MaxHeaderSize
    ensures Reads(p, Text(s), AfterStatus(p, s), [MessageBegin])
  {
    hide Reads, Decimal, Switch;
    Protocol(p);
    var a := p.(state := FirstHttpMajor, nread := p.nread + 5, flags := NoFlags, length := NoLength);
    ReadMajor(a, s.major);
    var b := a.(state := HttpMajor, major := Decimal(s.major), nread := a.nread + |s.major|);
    VersionByte(b, '.', b.(state := FirstHttpMinor, nread := b.nread + 1));
    var c := b.(state := FirstHttpMinor, nread := b.nread + 1);
    ReadMinor(c, s.minor);
    var d := c.(state := HttpMinor, minor := Decimal(s.minor), nread := c.nread + |s.minor|);
    VersionByte(d, ' ', d.(state := FirstStatusCode, nread := d.nread + 1));
    var e := d.(state := FirstStatusCode, nread := d.nread + 1);
    ReadCode(e, s.code);
    var f := e.(state := StatusCode, status := Decimal(s.code), nread := e.nread + |s.code|);
    ReasonAndEnd(f, s.reason);
    var g := AfterStatus(p, s);
    var tail := s.reason + CRLF;
    ReadsCat(e, s.code, f, [], tail, g, []);
    ReadsCat(d, " ", e, [], s.code + tail, g, []);
    ReadsCat(c, s.minor, d, [], " " + (s.code + tail), g, []);
    ReadsCat(b, ".", c, [], s.minor + (" " + (s.code + tail)), g, []);
    ReadsCat(a, s.major, b, [], "." + (s.minor + (" " + (s.code + tail))), g, []);
    ReadsCat(p, "HTTP/", a, [MessageBegin], s.major + ("." + (s.minor + (" " + (s.code + tail)))), g, []);
  }
}
