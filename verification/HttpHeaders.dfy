/** What the header-matching states recognise, stated on whole header lines. */
module HttpHeaders {
  import opened HttpMachine
  import opened HttpSafety
  import opened HttpExecute
  import opened HttpSplit

  // ---------------------------------------------------------------- field names

  function LowerName(name: string): (r: string)
    ensures |r| == |name|
  {
    seq(|name|, i requires 0 <= i < |name| => Token(name[i]))
  }

  predicate TokenName(name: string) {
    name != [] && forall c <- name :: Token(c) != '\0'
  }

  /** The header state that a field name `w`, in lower case, must lead to. */
  function NameState(w: string): HeaderState {
    if w == "c" then HC
    else if w == "co" then HCO
    else if w == "con" then HCON
    else if w == CONNECTION || w == PROXY_CONNECTION then Connection
    else if w == CONTENT_LENGTH then ContentLength
    else if w == TRANSFER_ENCODING then TransferEncoding
    else if w == UPGRADE then Upgrade
    else if w <= CONNECTION then MatchingConnection
    else if w <= CONTENT_LENGTH then MatchingContentLength
    else if w <= PROXY_CONNECTION then MatchingProxyConnection
    else if w <= TRANSFER_ENCODING then MatchingTransferEncoding
    else if w <= UPGRADE then MatchingUpgrade
    else General
  }

  predicate InsideName(hs: HeaderState) {
    hs.HC? || hs.HCO? || hs.HCON? || hs.MatchingConnection? || hs.MatchingProxyConnection?
    || hs.MatchingContentLength? || hs.MatchingTransferEncoding? || hs.MatchingUpgrade?
  }

  /** The automaton has read exactly `w`. */
  predicate TracksName(hs: HeaderState, index: nat, w: string) {
    w != [] && hs == NameState(w) && (InsideName(hs) ==> index == |w| - 1)
  }

  lemma PrefixSnoc(w: string, c: char, word: string)
    ensures w + [c] <= word <==> w <= word && |w| < |word| && word[|w|] == c
    ensures w + [c] == word <==> w <= word && |w| == |word| - 1 && word[|w|] == c
  {
    if w <= word && |w| < |word| && word[|w|] == c {
      assert word[..|w| + 1] == w + [c];
    }
    if w + [c] <= word {
      assert word[..|w|] == (w + [c])[..|w|] == w;
    }
  }

  lemma NameFirst(c: char)
    ensures TracksName(FieldFirst(c), 0, [c])
  {
    PrefixSnoc([], c, CONNECTION);
    PrefixSnoc([], c, CONTENT_LENGTH);
    PrefixSnoc([], c, PROXY_CONNECTION);
    PrefixSnoc([], c, TRANSFER_ENCODING);
    PrefixSnoc([], c, UPGRADE);
    assert [] + [c] == [c];
  }

  /** Two words that `w` starts differ from the first letter on, or the fourth. */
  lemma WordsDiffer(w: string)
    requires w != []
    ensures w <= CONNECTION || w <= CONTENT_LENGTH ==> w[0] == 'c'
    ensures w <= PROXY_CONNECTION ==> w[0] == 'p'
    ensures w <= TRANSFER_ENCODING ==> w[0] == 't'
    ensures w <= UPGRADE ==> w[0] == 'u'
    ensures |w| >= 4 && w <= CONNECTION ==> w[3] == 'n'
    ensures |w| >= 4 && w <= CONTENT_LENGTH ==> w[3] == 't'
  {
  }

  lemma NameStepInConnection(index: nat, w: string, c: char)
    requires TracksName(MatchingConnection, index, w)
    ensures var (h, i) := FieldStep(MatchingConnection, index, c); TracksName(h, i, w + [c])
  {
    WordsDiffer(w);
    WordsDiffer(w + [c]);
    PrefixSnoc(w, c, CONNECTION);
  }

  lemma NameStepInProxyConnection(index: nat, w: string, c: char)
    requires TracksName(MatchingProxyConnection, index, w)
    ensures var (h, i) := FieldStep(MatchingProxyConnection, index, c); TracksName(h, i, w + [c])
  {
    WordsDiffer(w);
    WordsDiffer(w + [c]);
    PrefixSnoc(w, c, PROXY_CONNECTION);
  }

  lemma NameStepInContentLength(index: nat, w: string, c: char)
    requires TracksName(MatchingContentLength, index, w)
    ensures var (h, i) := FieldStep(MatchingContentLength, index, c); TracksName(h, i, w + [c])
  {
    WordsDiffer(w);
    WordsDiffer(w + [c]);
    PrefixSnoc(w, c, CONTENT_LENGTH);
  }

  lemma NameStepInTransferEncoding(index: nat, w: string, c: char)
    requires TracksName(MatchingTransferEncoding, index, w)
    ensures var (h, i) := FieldStep(MatchingTransferEncoding, index, c); TracksName(h, i, w + [c])
  {
    WordsDiffer(w);
    WordsDiffer(w + [c]);
    PrefixSnoc(w, c, TRANSFER_ENCODING);
  }

  lemma NameStepInUpgrade(index: nat, w: string, c: char)
    requires TracksName(MatchingUpgrade, index, w)
    ensures var (h, i) := FieldStep(MatchingUpgrade, index, c); TracksName(h, i, w + [c])
  {
    WordsDiffer(w);
    WordsDiffer(w + [c]);
    PrefixSnoc(w, c, UPGRADE);
  }

  lemma NameStepEarly(hs: HeaderState, index: nat, w: string, c: char)
    requires hs.HC? || hs.HCO? || hs.HCON?
    requires TracksName(hs, index, w)
    ensures var (h, i) := FieldStep(hs, index, c); TracksName(h, i, w + [c])
  {
    WordsDiffer(w + [c]);
    PrefixSnoc(w, c, CONNECTION);
    PrefixSnoc(w, c, CONTENT_LENGTH);
  }

  /** After a whole word nothing is recognised any more. */
  lemma NameStepPast(hs: HeaderState, index: nat, w: string, c: char)
    requires hs.Connection? || hs.ContentLength? || hs.TransferEncoding? || hs.Upgrade?
    requires TracksName(hs, index, w)
    ensures var (h, i) := FieldStep(hs, index, c); TracksName(h, i, w + [c])
  {
    WordsDiffer(w);
    WordsDiffer(w + [c]);
  }

  /** A name that starts no word never will. */
  lemma NameStepGeneral(index: nat, w: string, c: char)
    requires TracksName(General, index, w)
    ensures var (h, i) := FieldStep(General, index, c); TracksName(h, i, w + [c])
  {
    PrefixSnoc(w, c, CONNECTION);
    PrefixSnoc(w, c, CONTENT_LENGTH);
    PrefixSnoc(w, c, PROXY_CONNECTION);
    PrefixSnoc(w, c, TRANSFER_ENCODING);
    PrefixSnoc(w, c, UPGRADE);
  }

  lemma NameStateKinds(w: string)
    ensures var hs := NameState(w);
      InsideName(hs) || hs.General? || hs.Connection? || hs.ContentLength? || hs.TransferEncoding? || hs.Upgrade?
  {
  }

  lemma NameStep(hs: HeaderState, index: nat, w: string, c: char)
    requires TracksName(hs, index, w)
    ensures var (h, i) := FieldStep(hs, index, c); TracksName(h, i, w + [c])
  {
    hide FieldStep, NameState;
    NameStateKinds(w);
    match hs {
      case MatchingConnection => NameStepInConnection(index, w, c);
      case MatchingProxyConnection => NameStepInProxyConnection(index, w, c);
      case MatchingContentLength => NameStepInContentLength(index, w, c);
      case MatchingTransferEncoding => NameStepInTransferEncoding(index, w, c);
      case MatchingUpgrade => NameStepInUpgrade(index, w, c);
      case HC => NameStepEarly(hs, index, w, c);
      case HCO => NameStepEarly(hs, index, w, c);
      case HCON => NameStepEarly(hs, index, w, c);
      case General => NameStepGeneral(index, w, c);
      case _ => NameStepPast(hs, index, w, c);
    }
  }

  // ---------------------------------------------------------------- reading bytes

  /** The machine takes all of `data` without stopping. */
  ghost predicate Reads(p: Parser, data: string, q: Parser, ev: seq<Event>) {
    Fold(p, data) == Run(q, ev, false, |data|)
  }

  lemma ReadsNothing(p: Parser)
    ensures Reads(p, [], p, [])
  {
  }

  lemma ReadsByte(p: Parser, ch: char, q: Parser, ev: seq<Event>)
    requires StepByte(p, ch) == Run(q, ev, false, 1)
    ensures Reads(p, [ch], q, ev)
  {
    hide StepByte;
    assert ev + [] == ev;
    var none: string := [];
    assert [ch][1..] == none;
    assert Fold(q, none) == Run(q, [], false, 0);
  }

  lemma ReadsCat(p: Parser, a: string, q: Parser, ea: seq<Event>, b: string, r: Parser, eb: seq<Event>)
    requires Reads(p, a, q, ea) && Reads(q, b, r, eb)
    ensures Reads(p, a + b, r, ea + eb)
    ensures ea == [] ==> Reads(p, a + b, r, eb)
    ensures eb == [] ==> Reads(p, a + b, r, ea)
  {
    hide Fold;
    FoldAppend(p, a, b);
    assert ea == [] ==> ea + eb == eb;
    assert eb == [] ==> ea + eb == ea;
  }

  /** A byte of the header region that is executed once. */
  lemma HeaderByte(p: Parser, ch: char)
    requires p.err.Ok? && ParsingHeader(p.state) && p.nread < MaxHeaderSize
    ensures var m := Switch(p.(nread := p.nread + 1), ch);
      m.p.err.Ok? && !m.again && !m.exit ==>
        && Reads(p, [ch], m.p, ByteEvents(m.take, ch) + m.notes)
        && (m.take.NoData? ==> Reads(p, [ch], m.p, m.notes))
        && (m.notes == [] ==> Reads(p, [ch], m.p, ByteEvents(m.take, ch)))
  {
    hide Switch;
    var m := Switch(p.(nread := p.nread + 1), ch);
    if m.p.err.Ok? && !m.again && !m.exit {
      ReadsByte(p, ch, m.p, ByteEvents(m.take, ch) + m.notes);
      assert m.notes == [] ==> ByteEvents(m.take, ch) + m.notes == ByteEvents(m.take, ch);
      assert m.take.NoData? ==> ByteEvents(m.take, ch) + m.notes == m.notes;
    }
  }

  lemma NameByte(p: Parser, w: string, ch: char)
    requires p.err.Ok? && p.state.HeaderField? && p.nread < MaxHeaderSize
    requires Token(ch) != '\0' && TracksName(p.hs, p.index, w)
    ensures var (h, i) := FieldStep(p.hs, p.index, Token(ch));
      && Reads(p, [ch], p.(hs := h, index := i, nread := p.nread + 1), [FieldByte(ch)])
      && TracksName(h, i, w + [Token(ch)])
  {
    hide FieldStep, Token, TracksName, Reads;
    HeaderByte(p, ch);
    NameStep(p.hs, p.index, w, Token(ch));
  }

  lemma {:induction false} NameBytes(p: Parser, w: string, rest: string) returns (q: Parser)
    requires p.err.Ok? && p.state.HeaderField? && p.nread + |rest| <= MaxHeaderSize
    requires (forall c <- rest :: Token(c) != '\0') && TracksName(p.hs, p.index, w)
    ensures q == p.(hs := q.hs, index := q.index, nread := p.nread + |rest|)
    ensures Reads(p, rest, q, Bytes(FieldData, rest)) && TracksName(q.hs, q.index, w + LowerName(rest))
    decreases |rest|
  {
    hide Reads, TracksName, Token, FieldStep;
    if rest == [] {
      ReadsNothing(p);
      assert w + LowerName(rest) == w;
      return p;
    }
    var ch, more := rest[0], rest[1..];
    assert ch in rest && rest == [ch] + more;
    NameByte(p, w, ch);
    var (h, i) := FieldStep(p.hs, p.index, Token(ch));
    var mid := p.(hs := h, index := i, nread := p.nread + 1);
    q := NameBytes(mid, w + [Token(ch)], more);
    ReadsCat(p, [ch], mid, [FieldByte(ch)], more, q, Bytes(FieldData, more));
    assert w + [Token(ch)] + LowerName(more) == w + LowerName(rest);
  }

  // ---------------------------------------------------------------- field values

  function LowerAll(v: string): (r: string)
    ensures |r| == |v|
  {
    seq(|v|, i requires 0 <= i < |v| => Lower(v[i]))
  }

  /** The value is `word`, in any letter case, followed by nothing but spaces. */
  predicate Worded(v: string, word: string) {
    && |word| <= |v|
    && LowerAll(v[..|word|]) == word
    && forall i | |word| <= i < |v| :: v[i] == ' '
  }

  /** The header state after the value bytes `v` when `word` is being matched. */
  function WordState(v: string, word: string, matching: HeaderState, matched: HeaderState): HeaderState {
    if Worded(v, word) then matched
    else if LowerAll(v) <= word then matching
    else General
  }

  lemma LowerSnoc(v: string, ch: char)
    ensures LowerAll(v + [ch]) == LowerAll(v) + [Lower(ch)]
  {
  }

  lemma WordedSnoc(v: string, ch: char, word: string)
    ensures Worded(v + [ch], word) <==>
      (|v| + 1 == |word| && LowerAll(v) + [Lower(ch)] == word) || (Worded(v, word) && ch == ' ')
  {
    LowerSnoc(v, ch);
    if |word| <= |v| {
      assert (v + [ch])[..|word|] == v[..|word|];
      if Worded(v + [ch], word) {
        assert (v + [ch])[|v|] == ' ';
        assert forall i | |word| <= i < |v| :: v[i] == (v + [ch])[i];
      }
    } else if |v| + 1 == |word| {
      assert (v + [ch])[..|word|] == v + [ch];
    }
  }

  /** The matching states recognise `word` and nothing else, one byte at a time. */
  lemma WordStep(v: string, ch: char, word: string, matching: HeaderState, matched: HeaderState)
    requires |v| >= 1 && matching != matched && matching != General && matched != General
    ensures WordState(v + [ch], word, matching, matched) ==
      var hs := WordState(v, word, matching, matched);
      if hs == matching then Match(word, |v|, Lower(ch), matching, matched)
      else if hs == matched then if ch == ' ' then matched else General
      else General
  {
    LowerSnoc(v, ch);
    WordedSnoc(v, ch, word);
    PrefixSnoc(LowerAll(v), Lower(ch), word);
    if Worded(v, word) && LowerAll(v) <= word {
      assert v[..|word|] == v;
    }
    if Worded(v, word) && |v| >= |word| {
      assert !(LowerAll(v) + [Lower(ch)] <= word);
    }
  }

  lemma WordFirst(ch: char, word: string, matching: HeaderState, matched: HeaderState)
    requires |word| >= 2
    ensures WordState([ch], word, matching, matched) == if Lower(ch) == word[0] then matching else General
  {
    assert LowerAll([ch]) == [Lower(ch)];
    PrefixSnoc([], Lower(ch), word);
    assert [] + [Lower(ch)] == [Lower(ch)];
  }

  /** Where a nonempty value `v` leads when the field name led to `kind`. */
  function ValueState(kind: HeaderState, v: string): HeaderState
    requires v != []
  {
    match kind
    case Connection =>
      if Lower(v[0]) == 'k' then WordState(v, KEEP_ALIVE, MatchingKeepAlive, KeepAlive)
      else if Lower(v[0]) == 'c' then WordState(v, CLOSE, MatchingClose, Close)
      else General
    case TransferEncoding => WordState(v, CHUNKED, MatchingChunked, Chunked)
    case ContentLength => ContentLength
    case _ => General
  }

  predicate InsideValue(hs: HeaderState) {
    hs.MatchingChunked? || hs.MatchingKeepAlive? || hs.MatchingClose?
  }

  /** The number a Content-Length value spells; spaces between and after the digits are skipped. */
  function Decimal(v: string): nat {
    if v == [] then 0
    else
      var d := Decimal(v[..|v| - 1]);
      var last := v[|v| - 1];
      if IsNum(last) then d * 10 + Digit(last) else d
  }

  predicate LengthText(v: string) {
    v != [] && IsNum(v[0]) && forall c <- v :: IsNum(c) || c == ' '
  }

  lemma {:induction false} DecimalGrows(v: string, w: string)
    ensures Decimal(v) <= Decimal(v + w)
    decreases |w|
  {
    if w == [] {
      assert v + w == v;
    } else {
      DecimalGrows(v, w[..|w| - 1]);
      assert (v + w)[..|v + w| - 1] == v + w[..|w| - 1];
    }
  }

  /** A value the parser accepts for a field of this kind. */
  predicate ValueText(kind: HeaderState, v: string) {
    && v != [] && v[0] != ' ' && v[0] != '\t'
    && (forall c <- v :: c != CR && c != LF)
    && (kind.ContentLength? ==> LengthText(v) && Decimal(v) < NoLength)
  }

  /** The parser after the nonempty value prefix `v` of a field of this kind, begun in `start`. */
  predicate TracksValue(start: Parser, kind: HeaderState, v: string, p: Parser) {
    && v != []
    && p == start.(state := HeaderValue, hs := ValueState(kind, v), index := p.index, nread := start.nread + |v|,
                   flags := if kind.Upgrade? then start.flags.(upgrade := true) else start.flags,
                   length := if kind.ContentLength? then Decimal(v) else start.length)
    && (InsideValue(p.hs) ==> p.index == |v| - 1)
  }

  lemma ValueFirst(start: Parser, ch: char) returns (q: Parser)
    requires start.err.Ok? && start.state.HeaderValueStart? && start.nread < MaxHeaderSize
    requires ValueText(start.hs, [ch])
    ensures Reads(start, [ch], q, [ValueByte(ch)]) && TracksValue(start, start.hs, [ch], q)
  {
    hide Reads, WordState, Lower, SwitchVersion, SwitchStatus, SwitchFieldStart, SwitchField, SwitchHeaderValue,
         SwitchHeaderLineEnd, SwitchHeadersEnd, SwitchBody;
    assert ch in [ch];
    HeaderByte(start, ch);
    WordFirst(ch, KEEP_ALIVE, MatchingKeepAlive, KeepAlive);
    WordFirst(ch, CLOSE, MatchingClose, Close);
    WordFirst(ch, CHUNKED, MatchingChunked, Chunked);
    assert Decimal([ch][..0]) == 0;
    q := SwitchHeaderValueStart(start.(nread := start.nread + 1), ch).p;
  }

  lemma DecimalSnoc(v: string, ch: char)
    ensures Decimal(v + [ch]) == if IsNum(ch) then Decimal(v) * 10 + Digit(ch) else Decimal(v)
  {
    assert (v + [ch])[..|v|] == v;
  }

  lemma AddDigitExact(length: nat, base: nat, digit: nat)
    requires length * base + digit < NoLength && base > 0
    ensures AddDigit(length, base, digit) == (length * base + digit, true)
  {
    assert length <= length * base;
  }

  /** The automaton's step inside a value, for the kinds that match words. */
  lemma ValueStateStep(kind: HeaderState, index: nat, v: string, ch: char)
    requires v != [] && !kind.ContentLength?
    requires InsideValue(ValueState(kind, v)) ==> index == |v| - 1
    ensures var (h, i) := ValueStep(ValueState(kind, v), index, ch);
      h == ValueState(kind, v + [ch]) && (InsideValue(h) ==> i == |v|)
  {
    hide WordState, Lower;
    WordStep(v, ch, KEEP_ALIVE, MatchingKeepAlive, KeepAlive);
    WordStep(v, ch, CLOSE, MatchingClose, Close);
    WordStep(v, ch, CHUNKED, MatchingChunked, Chunked);
    WordStateKinds(v, KEEP_ALIVE, MatchingKeepAlive, KeepAlive);
    WordStateKinds(v, CLOSE, MatchingClose, Close);
    WordStateKinds(v, CHUNKED, MatchingChunked, Chunked);
  }

  lemma WordStateKinds(v: string, word: string, matching: HeaderState, matched: HeaderState)
    ensures WordState(v, word, matching, matched) in {matching, matched, General}
  {
  }

  lemma ValueByteStep(start: Parser, v: string, p: Parser, ch: char) returns (q: Parser)
    requires start.err.Ok? && TracksValue(start, start.hs, v, p) && p.nread < MaxHeaderSize
    requires ValueText(start.hs, v + [ch])
    ensures Reads(p, [ch], q, [ValueByte(ch)]) && TracksValue(start, start.hs, v + [ch], q)
  {
    hide Reads, ValueStep, ValueState, AddDigit, SwitchVersion, SwitchStatus, SwitchFieldStart, SwitchField,
         SwitchHeaderValueStart, SwitchHeaderLineEnd, SwitchHeadersEnd, SwitchBody;
    assert ch in v + [ch];
    HeaderByte(p, ch);
    DecimalSnoc(v, ch);
    q := SwitchHeaderValue(p.(nread := p.nread + 1), ch).p;
    if start.hs.ContentLength? {
      ValueStateOfLength(v);
      ValueStateOfLength(v + [ch]);
      if IsNum(ch) {
        AddDigitExact(Decimal(v), 10, Digit(ch));
      }
    } else {
      ValueStateIsNotLength(start.hs, v);
      ValueStateStep(start.hs, p.index, v, ch);
    }
  }

  lemma ValueStateOfLength(v: string)
    requires v != []
    ensures ValueState(ContentLength, v) == ContentLength
  {
  }

  lemma ValueStateIsNotLength(kind: HeaderState, v: string)
    requires v != [] && !kind.ContentLength?
    ensures !ValueState(kind, v).ContentLength?
  {
  }

  lemma {:induction false} ValueBytes(start: Parser, v: string, p: Parser, rest: string) returns (q: Parser)
    requires start.err.Ok? && TracksValue(start, start.hs, v, p) && p.nread + |rest| <= MaxHeaderSize
    requires ValueText(start.hs, v + rest)
    ensures Reads(p, rest, q, Bytes(ValueData, rest)) && TracksValue(start, start.hs, v + rest, q)
    decreases |rest|
  {
    hide Reads, TracksValue, ValueText;
    if rest == [] {
      ReadsNothing(p);
      assert v + rest == v;
      return p;
    }
    var ch, more := rest[0], rest[1..];
    assert rest == [ch] + more && v + rest == v + [ch] + more;
    assert p.nread < MaxHeaderSize;
    ValueTextPrefix(start.hs, v + [ch], more);
    var mid := ValueByteStep(start, v, p, ch);
    ValueCount(start, v, p);
    ValueCount(start, v + [ch], mid);
    q := ValueBytes(start, v + [ch], mid, more);
    ReadsCat(p, [ch], mid, [ValueByte(ch)], more, q, Bytes(ValueData, more));
  }

  lemma ValueCount(start: Parser, v: string, p: Parser)
    requires TracksValue(start, start.hs, v, p)
    ensures p.nread == start.nread + |v|
  {
  }

  lemma ValueTextPrefix(kind: HeaderState, v: string, w: string)
    requires ValueText(kind, v + w) && v != []
    ensures ValueText(kind, v)
  {
    assert forall c <- v :: c in v + w;
    DecimalGrows(v, w);
  }
}
