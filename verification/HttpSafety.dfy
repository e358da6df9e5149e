/** The parser's assertions are reachability invariants: none fails on any input. */
module HttpSafety {
  import opened HttpMachine

  /** Header states that a field name can be in, with the index inside the word being matched. */
  predicate FieldLegal(hs: HeaderState, index: nat) {
    match hs
    case General => true
    case HC => index == 0
    case HCO => index == 1
    case HCON => index == 2
    case MatchingConnection => 3 <= index < |CONNECTION| - 1
    case MatchingProxyConnection => index < |PROXY_CONNECTION| - 1
    case MatchingContentLength => 3 <= index < |CONTENT_LENGTH| - 1
    case MatchingTransferEncoding => index < |TRANSFER_ENCODING| - 1
    case MatchingUpgrade => index < |UPGRADE| - 1
    case Connection => true
    case ContentLength => true
    case TransferEncoding => true
    case Upgrade => true
    case _ => false
  }

  /** Header states that a field value can be in. */
  predicate ValueLegal(hs: HeaderState, index: nat) {
    match hs
    case General => true
    case ContentLength => true
    case MatchingChunked => index < |CHUNKED| - 1
    case MatchingKeepAlive => index < |KEEP_ALIVE| - 1
    case MatchingClose => index < |CLOSE| - 1
    case Chunked => true
    case KeepAlive => true
    case Close => true
    case _ => false
  }

  predicate HeaderLegal(s: State, hs: HeaderState, index: nat) {
    && (s.HeaderField? ==> FieldLegal(hs, index))
    && (s.HeaderValue? ==> ValueLegal(hs, index))
  }

  /** `sized` is the number of header bytes counted at a chunk-size start. */
  predicate BodyLegal(s: State, chunked: bool, length: nat, nread: nat, sized: nat) {
    match s
    case BodyIdentity => 0 < length < NoLength
    case ChunkSizeStart => chunked && nread == sized
    case ChunkSize => chunked && length < NoLength
    case ChunkParameters => chunked && length < NoLength
    case ChunkSizeAlmostDone => chunked && length < NoLength
    case ChunkData => chunked && 0 < length < NoLength
    case ChunkDataAlmostDone => chunked && length == 0
    case ChunkDataDone => chunked
    case _ => length <= NoLength
  }

  /** What holds whenever the switch is entered. */
  predicate Legal(p: Parser, sized: nat) {
    && p.err.Ok?
    && p.length <= NoLength
    && p.major <= 999 && p.minor <= 999 && p.status <= 999
    && HeaderLegal(p.state, p.hs, p.index)
    && BodyLegal(p.state, p.flags.chunked, p.length, p.nread, sized)
  }

  /** Between two bytes. */
  predicate Inv(p: Parser) {
    Legal(p, 0) && !p.state.MessageDone? && !p.state.HeadersDone?
  }

  /** The assertions the program makes when it executes the switch in this state. */
  predicate AssertsHold(p: Parser) {
    && (p.state.HeaderField? ==> !(p.hs.MatchingChunked? || p.hs.MatchingKeepAlive? || p.hs.MatchingClose? || p.hs.Chunked? || p.hs.KeepAlive? || p.hs.Close?))
    && (p.state.HeaderValue? ==> !p.hs.Connection? && !p.hs.TransferEncoding?)
    && (p.state.BodyIdentity? ==> p.length != 0 && p.length != NoLength)
    && (p.state.ChunkSizeStart? ==> p.nread == 1 && p.flags.chunked)
    && ((p.state.ChunkSize? || p.state.ChunkParameters? || p.state.ChunkSizeAlmostDone? || p.state.ChunkDataDone?) ==> p.flags.chunked)
    && (p.state.ChunkData? ==> p.flags.chunked && p.length != 0 && p.length != NoLength)
    && (p.state.ChunkDataAlmostDone? ==> p.flags.chunked && p.length == 0)
  }

  /** Every read of a match word stays inside it, its terminating NUL included. */
  predicate WordReadsInside(p: Parser) {
    && (p.state.HeaderField? ==>
      match p.hs
      case MatchingConnection => p.index + 1 <= |CONNECTION|
      case MatchingProxyConnection => p.index + 1 <= |PROXY_CONNECTION|
      case MatchingContentLength => p.index + 1 <= |CONTENT_LENGTH|
      case MatchingTransferEncoding => p.index + 1 <= |TRANSFER_ENCODING|
      case MatchingUpgrade => p.index + 1 <= |UPGRADE|
      case _ => true)
    && (p.state.HeaderValue? ==>
      match p.hs
      case MatchingChunked => p.index + 1 <= |CHUNKED|
      case MatchingKeepAlive => p.index + 1 <= |KEEP_ALIVE|
      case MatchingClose => p.index + 1 <= |CLOSE|
      case _ => true)
  }

  ghost predicate MoveKeeps(m: Move) {
    m.p.err.Ok? ==> if m.again then Legal(m.p, 1) else Inv(m.p)
  }

  lemma VersionKeepsLegal(p: Parser, ch: char)
    requires Legal(p, 1) && VersionState(p.state)
    ensures MoveKeeps(SwitchVersion(p, ch))
  {
    hide FieldLegal, ValueLegal;
  }

  lemma StatusKeepsLegal(p: Parser, ch: char)
    requires Legal(p, 1) && StatusState(p.state)
    ensures MoveKeeps(SwitchStatus(p, ch))
  {
    hide FieldLegal, ValueLegal;
  }

  lemma FieldStepKeepsLegal(hs: HeaderState, index: nat, c: char)
    requires FieldLegal(hs, index)
    ensures var (h, i) := FieldStep(hs, index, c); FieldLegal(h, i)
  {
  }

  lemma ValueStepKeepsLegal(hs: HeaderState, index: nat, c: char)
    requires ValueLegal(hs, index)
    ensures var (h, i) := ValueStep(hs, index, c); ValueLegal(h, i)
  {
  }

  lemma FieldFirstIsLegal(c: char)
    ensures FieldLegal(FieldFirst(c), 0)
  {
  }

  lemma ContentLengthIsLegal(index: nat)
    ensures ValueLegal(ContentLength, index)
  {
  }

  lemma AddDigitInRange(length: nat, base: nat, digit: nat)
    ensures var (t, fits) := AddDigit(length, base, digit); fits ==> length <= t < NoLength
  {
  }

  lemma FieldStartKeepsLegal(p: Parser, ch: char)
    requires Legal(p, 1) && p.state.HeaderFieldStart?
    ensures MoveKeeps(SwitchFieldStart(p, ch))
  {
    hide FieldFirst, Token, FieldLegal, ValueLegal;
    FieldFirstIsLegal(Token(ch));
  }

  lemma FieldKeepsLegal(p: Parser, ch: char)
    requires Legal(p, 1) && p.state.HeaderField?
    ensures MoveKeeps(SwitchField(p, ch))
  {
    hide FieldStep, Token, FieldLegal, ValueLegal;
    FieldStepKeepsLegal(p.hs, p.index, Token(ch));
  }

  lemma ValueStartKeepsLegal(p: Parser, ch: char)
    requires Legal(p, 1) && p.state.HeaderValueStart?
    ensures MoveKeeps(SwitchHeaderValueStart(p, ch))
  {
    hide FieldLegal, Lower;
  }

  lemma ValueKeepsLegal(p: Parser, ch: char)
    requires Legal(p, 1) && p.state.HeaderValue?
    ensures MoveKeeps(SwitchHeaderValue(p, ch))
  {
    hide ValueStep, ValueLegal, AddDigit;
    if p.hs.ContentLength? {
      ContentLengthIsLegal(p.index);
      if IsNum(ch) {
        AddDigitInRange(p.length, 10, Digit(ch));
      }
    } else {
      ValueStepKeepsLegal(p.hs, p.index, ch);
    }
  }

  lemma HeaderLineEndKeepsLegal(p: Parser, ch: char)
    requires Legal(p, 1) && (p.state.HeaderAlmostDone? || p.state.HeaderValueLws?)
    ensures MoveKeeps(SwitchHeaderLineEnd(p, ch))
  {
    hide FieldLegal, ValueLegal;
  }

  lemma HeadersEndKeepsLegal(p: Parser, ch: char)
    requires Legal(p, 1) && (p.state.HeadersAlmostDone? || p.state.HeadersDone?)
    ensures MoveKeeps(SwitchHeadersEnd(p, ch))
  {
    hide FieldLegal, ValueLegal, ShouldKeepAlive;
  }

  lemma ChunkSizeKeepsLegal(p: Parser, ch: char)
    requires Legal(p, 1)
    requires p.state.ChunkSizeStart? || p.state.ChunkSize? || p.state.ChunkParameters?
    ensures MoveKeeps(SwitchBody(p, ch))
  {
    hide FieldLegal, ValueLegal, AddDigit;
    if 0 <= Unhex(ch) {
      AddDigitInRange(p.length, 16, Unhex(ch));
    }
  }

  lemma BodyKeepsLegal(p: Parser, ch: char)
    requires Legal(p, 1)
    requires p.state.BodyIdentity? || p.state.BodyIdentityEof? || p.state.MessageDone? || p.state.ChunkSizeAlmostDone?
             || p.state.ChunkData? || p.state.ChunkDataAlmostDone? || p.state.ChunkDataDone?
    ensures MoveKeeps(SwitchBody(p, ch))
  {
    hide FieldLegal, ValueLegal, AddDigit, Unhex;
  }

  /** One pass through the switch keeps the invariant, and re-enters the switch in a legal state. */
  lemma SwitchKeepsLegal(p: Parser, ch: char)
    requires Legal(p, 1)
    ensures MoveKeeps(Switch(p, ch))
  {
    hide SwitchVersion, SwitchStatus, SwitchFieldStart, SwitchField, SwitchHeaderValueStart, SwitchHeaderValue,
         SwitchHeaderLineEnd, SwitchHeadersEnd, SwitchBody;
    match p.state {
      case Dead =>
      case StartRes =>
      case HeaderFieldStart => FieldStartKeepsLegal(p, ch);
      case HeaderField => FieldKeepsLegal(p, ch);
      case HeaderValueStart => ValueStartKeepsLegal(p, ch);
      case HeaderValue => ValueKeepsLegal(p, ch);
      case HeaderAlmostDone => HeaderLineEndKeepsLegal(p, ch);
      case HeaderValueLws => HeaderLineEndKeepsLegal(p, ch);
      case HeadersAlmostDone => HeadersEndKeepsLegal(p, ch);
      case HeadersDone => HeadersEndKeepsLegal(p, ch);
      case ChunkSizeStart => ChunkSizeKeepsLegal(p, ch);
      case ChunkSize => ChunkSizeKeepsLegal(p, ch);
      case ChunkParameters => ChunkSizeKeepsLegal(p, ch);
      case _ =>
        if VersionState(p.state) {
          VersionKeepsLegal(p, ch);
        } else if StatusState(p.state) {
          StatusKeepsLegal(p, ch);
        } else {
          BodyKeepsLegal(p, ch);
        }
    }
  }

  /** All switch states that one byte goes through, the first included. */
  function Visited(p: Parser, ch: char): seq<Parser>
    decreases Rank(p.state)
  {
    var m := Switch(p, ch);
    [p] + if m.p.err.Ok? && m.again then Visited(m.p, ch) else []
  }

  lemma {:induction false} ReexecuteIsSafe(p: Parser, ch: char)
    requires Legal(p, 1)
    ensures forall q <- Visited(p, ch) :: AssertsHold(q) && WordReadsInside(q)
    ensures var r := Reexecute(p, ch); r.p.err.Ok? ==> Inv(r.p)
    decreases Rank(p.state)
  {
    hide Switch;
    SwitchKeepsLegal(p, ch);
    var m := Switch(p, ch);
    if m.p.err.Ok? && m.again {
      ReexecuteIsSafe(m.p, ch);
    }
  }

  lemma StepKeepsInv(p: Parser, ch: char)
    requires Inv(p)
    ensures var r := StepByte(p, ch); r.p.err.Ok? ==> Inv(r.p)
    ensures Count(p).err == Ok ==> Legal(Count(p), 1)
  {
    if Count(p).err == Ok {
      ReexecuteIsSafe(Count(p), ch);
    }
  }

  lemma {:induction false} ReexecuteStopsOnError(p: Parser, ch: char)
    ensures var r := Reexecute(p, ch); !r.stopped ==> r.p.err.Ok? && r.used == 1
    decreases Rank(p.state)
  {
    hide Switch;
    var m := Switch(p, ch);
    if m.p.err.Ok? && m.again {
      ReexecuteStopsOnError(m.p, ch);
    }
  }

  lemma StepStopsOnError(p: Parser, ch: char)
    ensures var r := StepByte(p, ch); !r.stopped ==> r.p.err.Ok? && r.used == 1
  {
    if Count(p).err == Ok {
      ReexecuteStopsOnError(Count(p), ch);
    }
  }

  /** The states that a run over `data` enters the switch with. */
  function Reached(p: Parser, data: string): seq<Parser>
    decreases |data|
  {
    if data == [] then []
    else
      var q := Count(p);
      if !q.err.Ok? then []
      else
        var r := StepByte(p, data[0]);
        Visited(q, data[0]) + if r.stopped then [] else Reached(r.p, data[1..])
  }

  lemma {:induction false} RunIsSafe(p: Parser, data: string)
    requires Inv(p)
    ensures forall q <- Reached(p, data) :: AssertsHold(q) && WordReadsInside(q)
    ensures var r := Fold(p, data); r.p.err.Ok? ==> Inv(r.p)
    decreases |data|
  {
    if data != [] && Count(p).err == Ok {
      StepKeepsInv(p, data[0]);
      ReexecuteIsSafe(Count(p), data[0]);
      var r := StepByte(p, data[0]);
      if !r.stopped {
        StepStopsOnError(p, data[0]);
        RunIsSafe(r.p, data[1..]);
      }
    }
  }

  /** No assertion of the parser fails, whatever bytes arrive after its initialisation. */
  lemma NoAssertFails(head: bool, data: string)
    ensures forall q <- Reached(Init(head), data) :: AssertsHold(q) && WordReadsInside(q)
    ensures var r := Fold(Init(head), data); r.p.err.Ok? ==> Inv(r.p)
  {
    RunIsSafe(Init(head), data);
  }
}
