/**
 The response side of the HTTP parser as a machine over single bytes.

 `Switch` is one pass through the parser's state switch, `StepByte` one byte (with the
 header-size count before it and the re-executions after it) and `Fold` a whole input.
 A byte is written as a `char`; only the codes 0 to 255 occur in the program.
 */
module HttpMachine {

  const CR: char := '\r'
  const LF: char := '\n'

  /** 2^64 - 1: "no Content-Length header". */
  const NoLength: nat := 0xFFFF_FFFF_FFFF_FFFF
  const Word64: nat := 0x1_0000_0000_0000_0000
  const MaxHeaderSize: nat := 80 * 1024

  datatype State =
    | Dead
    | StartRes
    | ResH
    | ResHT
    | ResHTT
    | ResHTTP
    | FirstHttpMajor
    | HttpMajor
    | FirstHttpMinor
    | HttpMinor
    | FirstStatusCode
    | StatusCode
    | Status
    | LineAlmostDone
    | HeaderFieldStart
    | HeaderField
    | HeaderValueStart
    | HeaderValue
    | HeaderValueLws
    | HeaderAlmostDone
    | ChunkSizeStart
    | ChunkSize
    | ChunkParameters
    | ChunkSizeAlmostDone
    | HeadersAlmostDone
    | HeadersDone
    | ChunkData
    | ChunkDataAlmostDone
    | ChunkDataDone
    | BodyIdentity
    | BodyIdentityEof
    | MessageDone

  datatype HeaderState =
    | General
    | HC
    | HCO
    | HCON
    | MatchingConnection
    | MatchingProxyConnection
    | MatchingContentLength
    | MatchingTransferEncoding
    | MatchingUpgrade
    | Connection
    | ContentLength
    | TransferEncoding
    | Upgrade
    | MatchingChunked
    | MatchingKeepAlive
    | MatchingClose
    | Chunked
    | KeepAlive
    | Close

  datatype Errno =
    | Ok
    | InvalidEofState
    | HeaderOverflow
    | ClosedConnection
    | InvalidVersion
    | InvalidStatus
    | InvalidHeaderToken
    | InvalidContentLength
    | InvalidChunkSize
    | InvalidConstant
    | Strict

  /** The flag bits of a message. */
  datatype Flags = Flags(chunked: bool, keepAlive: bool, close: bool, trailing: bool, upgrade: bool, skipBody: bool)

  const NoFlags := Flags(false, false, false, false, false, false)

  /** The parser's fields. `head` is the answer of the headers-complete callback: true says "no body follows". */
  datatype Parser = Parser(
    state: State,
    hs: HeaderState,
    index: nat,
    nread: nat,
    length: nat,
    major: nat,
    minor: nat,
    status: nat,
    flags: Flags,
    upgrade: bool,
    err: Errno,
    head: bool)

  function Init(head: bool): Parser {
    Parser(StartRes, General, 0, 0, 0, 0, 0, 0, NoFlags, false, Ok, head)
  }

  /** What the callbacks see, one byte at a time. */
  datatype Event =
    | MessageBegin
    | FieldByte(b: char)
    | ValueByte(b: char)
    | HeadersComplete
    | BodyByte(b: char)
    | MessageComplete

  datatype Data = NoData | FieldData | ValueData | BodyData

  /** The result of one pass through the switch: `take` says which callback data the byte belongs to,
      `again` that the same byte is executed again, `exit` that parsing stops for a protocol upgrade. */
  datatype Move = Move(p: Parser, take: Data, notes: seq<Event>, again: bool, exit: bool)

  function Go(p: Parser): Move {
    Move(p, NoData, [], false, false)
  }

  function Take(p: Parser, d: Data): Move {
    Move(p, d, [], false, false)
  }

  function Note(p: Parser, e: Event): Move {
    Move(p, NoData, [e], false, false)
  }

  function Again(p: Parser): Move {
    Move(p, NoData, [], true, false)
  }

  function Fail(p: Parser, e: Errno): (m: Move) {
    Go(p.(err := if e == Ok then Strict else e))
  }

  // ---------------------------------------------------------------- characters

  predicate IsNum(c: char) {
    '0' <= c <= '9'
  }

  function Digit(c: char): nat
    requires IsNum(c)
  {
    c as int - '0' as int
  }

  /** `c | 0x20` on a byte. */
  function Lower(c: char): char {
    if c as int < 256 && c as int / 32 % 2 == 0 then (c as int + 32) as char else c
  }

  /** The token table: a token character in lower case, or NUL for anything else. */
  function Token(c: char): char {
    if 'A' <= c <= 'Z' then Lower(c)
    else if 'a' <= c <= 'z' || '0' <= c <= '9' || c in "!#$%&'*+-.^_`|~" then c
    else '\0'
  }

  /** The value of a hexadecimal digit, or -1. */
  function Unhex(c: char): int {
    if '0' <= c <= '9' then c as int - '0' as int
    else if 'a' <= c <= 'f' then c as int - 'a' as int + 10
    else if 'A' <= c <= 'F' then c as int - 'A' as int + 10
    else -1
  }

  // ---------------------------------------------------------------- header matching

  const CONNECTION := "connection"
  const PROXY_CONNECTION := "proxy-connection"
  const CONTENT_LENGTH := "content-length"
  const TRANSFER_ENCODING := "transfer-encoding"
  const UPGRADE := "upgrade"
  const CHUNKED := "chunked"
  const KEEP_ALIVE := "keep-alive"
  const CLOSE := "close"

  /** One step of matching `word`: `index` has already been advanced onto the character `c`. */
  function Match(word: string, index: nat, c: char, matching: HeaderState, matched: HeaderState): HeaderState {
    if index >= |word| || c != word[index] then General
    else if index == |word| - 1 then matched
    else matching
  }

  /** The header state after the token character `c` of a field name. */
  function FieldStep(hs: HeaderState, index: nat, c: char): (r: (HeaderState, nat)) {
    match hs
    case General => (General, index)
    case HC => (if c == 'o' then HCO else General, index + 1)
    case HCO => (if c == 'n' then HCON else General, index + 1)
    case HCON =>
      (if c == 'n' then MatchingConnection else if c == 't' then MatchingContentLength else General, index + 1)
    case MatchingConnection => (Match(CONNECTION, index + 1, c, hs, Connection), index + 1)
    case MatchingProxyConnection => (Match(PROXY_CONNECTION, index + 1, c, hs, Connection), index + 1)
    case MatchingContentLength => (Match(CONTENT_LENGTH, index + 1, c, hs, ContentLength), index + 1)
    case MatchingTransferEncoding => (Match(TRANSFER_ENCODING, index + 1, c, hs, TransferEncoding), index + 1)
    case MatchingUpgrade => (Match(UPGRADE, index + 1, c, hs, Upgrade), index + 1)
    case Connection => (General, index)
    case ContentLength => (General, index)
    case TransferEncoding => (General, index)
    case Upgrade => (General, index)
    case _ => (hs, index)
  }

  function FieldFirst(c: char): HeaderState {
    if c == 'c' then HC
    else if c == 'p' then MatchingProxyConnection
    else if c == 't' then MatchingTransferEncoding
    else if c == 'u' then MatchingUpgrade
    else General
  }

  /** The header state after the byte `ch` of a field value, for every state but Content-Length. */
  function ValueStep(hs: HeaderState, index: nat, ch: char): (r: (HeaderState, nat)) {
    var c := Lower(ch);
    match hs
    case MatchingChunked => (Match(CHUNKED, index + 1, c, hs, Chunked), index + 1)
    case MatchingKeepAlive => (Match(KEEP_ALIVE, index + 1, c, hs, KeepAlive), index + 1)
    case MatchingClose => (Match(CLOSE, index + 1, c, hs, Close), index + 1)
    case Chunked => (if ch == ' ' then hs else General, index)
    case KeepAlive => (if ch == ' ' then hs else General, index)
    case Close => (if ch == ' ' then hs else General, index)
    case Connection => (hs, index)
    case TransferEncoding => (hs, index)
    case _ => (General, index)
  }

  // ---------------------------------------------------------------- the switch

  /** Does the parser need to see the end of the connection to find the end of the message? */
  predicate NeedsEof(p: Parser) {
    !(p.status / 100 == 1 || p.status == 204 || p.status == 304 || p.flags.skipBody)
    && !p.flags.chunked && p.length == NoLength
  }

  predicate ShouldKeepAlive(p: Parser) {
    (if p.major > 0 && p.minor > 0 then !p.flags.close else p.flags.keepAlive) && !NeedsEof(p)
  }

  function NewMessage(p: Parser): State {
    if ShouldKeepAlive(p) then StartRes else Dead
  }

  /** One more decimal or hexadecimal digit of a length in 64-bit arithmetic, with the parser's overflow test. */
  function AddDigit(length: nat, base: nat, digit: nat): (r: (nat, bool)) {
    var t := (length * base % Word64 + digit) % Word64;
    (t, t >= length && t != NoLength)
  }

  function SwitchVersion(p: Parser, ch: char): Move {
    match p.state
    case ResH => if ch != 'T' then Fail(p, Strict) else Go(p.(state := ResHT))
    case ResHT => if ch != 'T' then Fail(p, Strict) else Go(p.(state := ResHTT))
    case ResHTT => if ch != 'P' then Fail(p, Strict) else Go(p.(state := ResHTTP))
    case ResHTTP => if ch != '/' then Fail(p, Strict) else Go(p.(state := FirstHttpMajor))
    case FirstHttpMajor =>
      if !IsNum(ch) then Fail(p, InvalidVersion) else Go(p.(major := Digit(ch), state := HttpMajor))
    case HttpMajor =>
      if ch == '.' then Go(p.(state := FirstHttpMinor))
      else if !IsNum(ch) then Fail(p, InvalidVersion)
      else
        var q := p.(major := p.major * 10 + Digit(ch));
        if q.major > 999 then Fail(q, InvalidVersion) else Go(q)
    case FirstHttpMinor =>
      if !IsNum(ch) then Fail(p, InvalidVersion) else Go(p.(minor := Digit(ch), state := HttpMinor))
    case _ => // HttpMinor
      if ch == ' ' then Go(p.(state := FirstStatusCode))
      else if !IsNum(ch) then Fail(p, InvalidVersion)
      else
        var q := p.(minor := p.minor * 10 + Digit(ch));
        if q.minor > 999 then Fail(q, InvalidVersion) else Go(q)
  }

  function SwitchStatus(p: Parser, ch: char): Move {
    match p.state
    case FirstStatusCode =>
      if IsNum(ch) then Go(p.(status := Digit(ch), state := StatusCode))
      else if ch == ' ' then Go(p)
      else Fail(p, InvalidStatus)
    case StatusCode =>
      if IsNum(ch) then
        var q := p.(status := p.status * 10 + Digit(ch));
        if q.status > 999 then Fail(q, InvalidStatus) else Go(q)
      else if ch == ' ' then Go(p.(state := Status))
      else if ch == CR then Go(p.(state := LineAlmostDone))
      else if ch == LF then Go(p.(state := HeaderFieldStart))
      else Fail(p, InvalidStatus)
    case Status =>
      if ch == CR then Go(p.(state := LineAlmostDone))
      else if ch == LF then Go(p.(state := HeaderFieldStart))
      else Go(p)
    case _ => // LineAlmostDone
      if ch != LF then Fail(p, Strict) else Go(p.(state := HeaderFieldStart))
  }

  function SwitchHeaderValueStart(p: Parser, ch: char): Move {
    if ch == ' ' || ch == '\t' then Go(p)
    else if ch == CR then Go(p.(hs := General, index := 0, state := HeaderAlmostDone))
    else if ch == LF then Go(p.(index := 0, state := HeaderFieldStart))
    else
      var q := p.(index := 0, state := HeaderValue);
      var c := Lower(ch);
      match p.hs
      case Upgrade => Take(q.(flags := q.flags.(upgrade := true), hs := General), ValueData)
      case TransferEncoding => Take(q.(hs := if c == 'c' then MatchingChunked else General), ValueData)
      case ContentLength =>
        if !IsNum(ch) then Fail(q, InvalidContentLength) else Take(q.(length := Digit(ch)), ValueData)
      case Connection =>
        Take(q.(hs := if c == 'k' then MatchingKeepAlive else if c == 'c' then MatchingClose else General), ValueData)
      case _ => Take(q.(hs := General), ValueData)
  }

  function SwitchHeaderValue(p: Parser, ch: char): Move {
    if ch == CR then Go(p.(state := HeaderAlmostDone))
    else if ch == LF then Again(p.(state := HeaderAlmostDone))
    else if p.hs.ContentLength? then
      if ch == ' ' then Take(p, ValueData)
      else if !IsNum(ch) then Fail(p, InvalidContentLength)
      else
        var (t, fits) := AddDigit(p.length, 10, Digit(ch));
        if !fits then Fail(p, InvalidContentLength) else Take(p.(length := t), ValueData)
    else
      var (hs, index) := ValueStep(p.hs, p.index, ch);
      Take(p.(hs := hs, index := index), ValueData)
  }

  function SwitchFieldStart(p: Parser, ch: char): Move {
    if ch == CR then Go(p.(state := HeadersAlmostDone))
    else if ch == LF then Again(p.(state := HeadersAlmostDone))
    else
      var c := Token(ch);
      if c == '\0' then Fail(p, InvalidHeaderToken)
      else Take(p.(index := 0, state := HeaderField, hs := FieldFirst(c)), FieldData)
  }

  function SwitchField(p: Parser, ch: char): Move {
    var c := Token(ch);
    if c != '\0' then
      var (hs, index) := FieldStep(p.hs, p.index, c);
      Take(p.(hs := hs, index := index), FieldData)
    else if ch == ':' then Go(p.(state := HeaderValueStart))
    else if ch == CR then Go(p.(state := HeaderAlmostDone))
    else if ch == LF then Go(p.(state := HeaderFieldStart))
    else Fail(p, InvalidHeaderToken)
  }

  /** The flags after a header line whose value ended in the header state `hs`. */
  function FlagsAfter(f: Flags, hs: HeaderState): Flags {
    match hs
    case KeepAlive => f.(keepAlive := true)
    case Close => f.(close := true)
    case Chunked => f.(chunked := true)
    case _ => f
  }

  function SwitchHeaderLineEnd(p: Parser, ch: char): Move {
    match p.state
    case HeaderAlmostDone =>
      if ch != LF then Fail(p, Strict)
      else Go(p.(state := HeaderValueLws, flags := FlagsAfter(p.flags, p.hs)))
    case _ => // HeaderValueLws
      if ch == ' ' || ch == '\t' then Go(p.(state := HeaderValueStart)) else Again(p.(state := HeaderFieldStart))
  }

  function SwitchHeadersEnd(p: Parser, ch: char): Move {
    match p.state
    case HeadersAlmostDone =>
      if ch != LF then Fail(p, Strict)
      else if p.flags.trailing then Note(p.(state := NewMessage(p)), MessageComplete)
      else
        var q := p.(state := HeadersDone, upgrade := p.flags.upgrade);
        Move(if p.head then q.(flags := q.flags.(skipBody := true)) else q, NoData, [HeadersComplete], true, false)
    case _ => // HeadersDone
      if ch != LF then Fail(p, Strict)
      else
        var q := p.(nread := 0);
        if q.upgrade then Move(q.(state := NewMessage(q)), NoData, [MessageComplete], false, true)
        else if q.flags.skipBody then Note(q.(state := NewMessage(q)), MessageComplete)
        else if q.flags.chunked then Go(q.(state := ChunkSizeStart))
        else if q.length == 0 then Note(q.(state := NewMessage(q)), MessageComplete)
        else if q.length != NoLength then Go(q.(state := BodyIdentity))
        else if !NeedsEof(q) then Note(q.(state := NewMessage(q)), MessageComplete)
        else Go(q.(state := BodyIdentityEof))
  }

  /** Body states on one byte. The bulk copies of the program are shown equal to repetitions of this. */
  function SwitchBody(p: Parser, ch: char): Move {
    match p.state
    case BodyIdentity =>
      var q := p.(length := if p.length == 0 then 0 else p.length - 1);
      if q.length == 0 then Move(q.(state := MessageDone), BodyData, [], true, false) else Take(q, BodyData)
    case BodyIdentityEof => Take(p, BodyData)
    case MessageDone => Note(p.(state := NewMessage(p)), MessageComplete)
    case ChunkSizeStart =>
      if Unhex(ch) < 0 then Fail(p, InvalidChunkSize)
      else Go(p.(length := Unhex(ch), state := ChunkSize))
    case ChunkSize =>
      if ch == CR then Go(p.(state := ChunkSizeAlmostDone))
      else if Unhex(ch) < 0 then
        if ch == ';' || ch == ' ' then Go(p.(state := ChunkParameters)) else Fail(p, InvalidChunkSize)
      else
        var (t, fits) := AddDigit(p.length, 16, Unhex(ch));
        if !fits then Fail(p, InvalidContentLength) else Go(p.(length := t))
    case ChunkParameters =>
      if ch == CR then Go(p.(state := ChunkSizeAlmostDone)) else Go(p)
    case ChunkSizeAlmostDone =>
      if ch != LF then Fail(p, Strict)
      else if p.length == 0 then
        Go(p.(nread := 0, flags := p.flags.(trailing := true), state := HeaderFieldStart))
      else Go(p.(nread := 0, state := ChunkData))
    case ChunkData =>
      var q := p.(length := if p.length == 0 then 0 else p.length - 1);
      Take(if q.length == 0 then q.(state := ChunkDataAlmostDone) else q, BodyData)
    case ChunkDataAlmostDone =>
      if ch != CR then Fail(p, Strict) else Go(p.(state := ChunkDataDone))
    case _ => // ChunkDataDone
      if ch != LF then Fail(p, Strict) else Go(p.(nread := 0, state := ChunkSizeStart))
  }

  predicate VersionState(s: State) {
    s.ResH? || s.ResHT? || s.ResHTT? || s.ResHTTP? || s.FirstHttpMajor? || s.HttpMajor? || s.FirstHttpMinor?
    || s.HttpMinor?
  }

  predicate StatusState(s: State) {
    s.FirstStatusCode? || s.StatusCode? || s.Status? || s.LineAlmostDone?
  }

  /** States counted by the header-size limit: everything up to and including the end of the headers. */
  predicate ParsingHeader(s: State) {
    !(s.ChunkData? || s.ChunkDataAlmostDone? || s.ChunkDataDone? || s.BodyIdentity? || s.BodyIdentityEof?
      || s.MessageDone?)
  }

  /** One pass through the switch. */
  function Switch(p: Parser, ch: char): (m: Move)
    ensures m.again ==> m.p.err == p.err && Rank(m.p.state) < Rank(p.state)
  {
    match p.state
    case Dead => if ch == CR || ch == LF then Go(p) else Fail(p, ClosedConnection)
    case StartRes =>
      var q := p.(flags := NoFlags, length := NoLength);
      if ch == 'H' then Note(q.(state := ResH), MessageBegin)
      else if ch == CR || ch == LF then Note(q, MessageBegin)
      else Fail(q, InvalidConstant)
    case _ =>
      if VersionState(p.state) then SwitchVersion(p, ch)
      else if StatusState(p.state) then SwitchStatus(p, ch)
      else if p.state.HeaderFieldStart? then SwitchFieldStart(p, ch)
      else if p.state.HeaderField? then SwitchField(p, ch)
      else if p.state.HeaderValueStart? then SwitchHeaderValueStart(p, ch)
      else if p.state.HeaderValue? then SwitchHeaderValue(p, ch)
      else if p.state.HeaderAlmostDone? || p.state.HeaderValueLws? then SwitchHeaderLineEnd(p, ch)
      else if p.state.HeadersAlmostDone? || p.state.HeadersDone? then SwitchHeadersEnd(p, ch)
      else SwitchBody(p, ch)
  }

  /** Orders the states by how often they can still re-execute a byte. */
  function Rank(s: State): nat {
    match s
    case HeaderValue => 5
    case HeaderValueLws => 4
    case HeaderFieldStart => 3
    case HeadersAlmostDone => 2
    case BodyIdentity => 2
    case _ => 1
  }

  // ---------------------------------------------------------------- folding

  /** Result of a run: `used` counts the bytes the run consumed; it `stopped` on an error or an upgrade. */
  datatype Run = Run(p: Parser, ev: seq<Event>, stopped: bool, used: nat)

  function ByteEvents(d: Data, ch: char): seq<Event> {
    match d
    case NoData => []
    case FieldData => [FieldByte(ch)]
    case ValueData => [ValueByte(ch)]
    case BodyData => [BodyByte(ch)]
  }

  function Reexecute(p: Parser, ch: char): Run
    decreases Rank(p.state)
  {
    var m := Switch(p, ch);
    var ev := ByteEvents(m.take, ch) + m.notes;
    if !m.p.err.Ok? then Run(m.p, ev, true, 0)
    else if m.again then
      var r := Reexecute(m.p, ch);
      Run(r.p, ev + r.ev, r.stopped, r.used)
    else Run(m.p, ev, m.exit, 1)
  }

  /** The count of header bytes that runs before every byte. */
  function Count(p: Parser): Parser {
    if ParsingHeader(p.state) then
      var q := p.(nread := p.nread + 1);
      if q.nread > MaxHeaderSize then q.(err := HeaderOverflow) else q
    else p
  }

  function StepByte(p: Parser, ch: char): Run {
    var q := Count(p);
    if !q.err.Ok? then Run(q, [], true, 0) else Reexecute(q, ch)
  }

  function Fold(p: Parser, data: string): Run
    decreases |data|
  {
    if data == [] then Run(p, [], false, 0)
    else
      var r := StepByte(p, data[0]);
      if r.stopped then r
      else
        var s := Fold(r.p, data[1..]);
        Run(s.p, r.ev + s.ev, s.stopped, 1 + s.used)
  }
}
