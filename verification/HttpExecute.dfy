/**
 The parser as the program runs it: a loop over a buffer with data marks, bulk copies of body bytes and
 re-executed bytes. It is proved equal to the byte-by-byte machine of `HttpMachine`.
 */
module HttpExecute {
  import opened HttpMachine
  import opened HttpSafety

  datatype Callback =
    | OnMessageBegin
    | OnHeaderField(data: string)
    | OnHeaderValue(data: string)
    | OnHeadersComplete
    | OnBody(data: string)
    | OnMessageComplete

  function Bytes(d: Data, data: string): (r: seq<Event>)
    ensures data == [] ==> r == []
  {
    if data == [] then [] else ByteEvents(d, data[0]) + Bytes(d, data[1..])
  }

  function EventsOf(c: Callback): seq<Event> {
    match c
    case OnMessageBegin => [MessageBegin]
    case OnHeaderField(data) => Bytes(FieldData, data)
    case OnHeaderValue(data) => Bytes(ValueData, data)
    case OnHeadersComplete => [HeadersComplete]
    case OnBody(data) => Bytes(BodyData, data)
    case OnMessageComplete => [MessageComplete]
  }

  /** The callbacks with every data callback spelled out byte by byte. */
  function Flat(calls: seq<Callback>): seq<Event> {
    if calls == [] then [] else Flat(calls[..|calls| - 1]) + EventsOf(calls[|calls| - 1])
  }

  lemma FlatSnoc(calls: seq<Callback>, c: Callback)
    ensures Flat(calls + [c]) == Flat(calls) + EventsOf(c)
  {
    assert (calls + [c])[..|calls|] == calls;
  }

  lemma {:induction false} BytesAppend(d: Data, a: string, b: string)
    ensures Bytes(d, a + b) == Bytes(d, a) + Bytes(d, b)
    decreases |a|
  {
    if a == [] {
      assert a + b == b;
    } else {
      assert (a + b)[1..] == a[1..] + b;
      BytesAppend(d, a[1..], b);
    }
  }

  /** A live mark: data of this kind began at this position of the buffer. */
  datatype Mark = Unset | At(pos: nat)

  datatype Marks = Marks(field: Mark, value: Mark, body: Mark)

  predicate MarksInside(m: Marks, i: nat) {
    && (m.field.At? ==> m.field.pos <= i)
    && (m.value.At? ==> m.value.pos <= i)
    && (m.body.At? ==> m.body.pos <= i)
  }

  function MarkedBytes(d: Data, m: Mark, data: string, i: nat): seq<Event>
    requires i <= |data|
    requires m.At? ==> m.pos <= i
  {
    if m.At? then Bytes(d, data[m.pos..i]) else []
  }

  /** The bytes before `i` that are marked but not yet handed to a callback. */
  function Pending(m: Marks, data: string, i: nat): seq<Event>
    requires i <= |data| && MarksInside(m, i)
  {
    MarkedBytes(FieldData, m.field, data, i) + MarkedBytes(ValueData, m.value, data, i)
    + MarkedBytes(BodyData, m.body, data, i)
  }

  /** At most one mark is live, and the state says which. */
  predicate MarksAgree(m: Marks, s: State) {
    && (m.field.At? <==> s.HeaderField?)
    && (m.value.At? <==> s.HeaderValue?)
    && (m.body.At? ==> s.BodyIdentity? || s.BodyIdentityEof? || s.ChunkData? || s.ChunkDataAlmostDone?)
  }

  predicate BulkState(s: State) {
    s.BodyIdentity? || s.BodyIdentityEof? || s.ChunkData?
  }

  /** What one pass through the switch does with the byte, for a state without a bulk copy. */
  ghost predicate DataAgrees(p: Parser, m: Move) {
    m.p.err.Ok? ==>
      && !m.take.BodyData?
      && (m.take.FieldData? <==> m.p.state.HeaderField?)
      && (m.take.ValueData? <==> m.p.state.HeaderValue?)
      && (m.take.FieldData? ==> p.state.HeaderFieldStart? || p.state.HeaderField?)
      && (m.take.ValueData? ==> p.state.HeaderValueStart? || p.state.HeaderValue?)
      && (m.notes == [] || m.notes == [MessageBegin] || m.notes == [HeadersComplete] || m.notes == [MessageComplete])
      && (!m.take.NoData? ==> m.notes == [] && !m.again && !m.exit)
      && (m.exit ==> !m.again)
  }

  lemma StatusLineData(p: Parser, ch: char)
    ensures VersionState(p.state) ==> DataAgrees(p, SwitchVersion(p, ch))
    ensures StatusState(p.state) ==> DataAgrees(p, SwitchStatus(p, ch))
  {
  }

  lemma HeaderLineData(p: Parser, ch: char)
    ensures p.state.HeaderFieldStart? ==> DataAgrees(p, SwitchFieldStart(p, ch))
    ensures p.state.HeaderField? ==> DataAgrees(p, SwitchField(p, ch))
    ensures p.state.HeaderAlmostDone? || p.state.HeaderValueLws? ==> DataAgrees(p, SwitchHeaderLineEnd(p, ch))
  {
    hide Token, FieldStep, FieldFirst;
  }

  lemma HeaderValueData(p: Parser, ch: char)
    ensures p.state.HeaderValueStart? ==> DataAgrees(p, SwitchHeaderValueStart(p, ch))
    ensures p.state.HeaderValue? ==> DataAgrees(p, SwitchHeaderValue(p, ch))
  {
    hide ValueStep, AddDigit, Lower;
  }

  lemma HeadersEndData(p: Parser, ch: char)
    requires p.state.HeadersAlmostDone? || p.state.HeadersDone?
    ensures DataAgrees(p, SwitchHeadersEnd(p, ch))
  {
    hide ShouldKeepAlive;
  }

  lemma ChunkStateData(p: Parser, ch: char)
    requires p.state.MessageDone? || p.state.ChunkSizeStart? || p.state.ChunkSize? || p.state.ChunkParameters?
             || p.state.ChunkSizeAlmostDone? || p.state.ChunkDataAlmostDone? || p.state.ChunkDataDone?
    ensures DataAgrees(p, SwitchBody(p, ch))
  {
    hide AddDigit, Unhex, ShouldKeepAlive;
  }

  lemma SwitchData(p: Parser, ch: char)
    requires !BulkState(p.state)
    ensures DataAgrees(p, Switch(p, ch))
  {
    hide SwitchVersion, SwitchStatus, SwitchFieldStart, SwitchField, SwitchHeaderValueStart, SwitchHeaderValue,
         SwitchHeaderLineEnd, SwitchHeadersEnd, SwitchBody;
    if VersionState(p.state) || StatusState(p.state) {
      StatusLineData(p, ch);
    } else if p.state.HeadersAlmostDone? || p.state.HeadersDone? {
      HeadersEndData(p, ch);
    } else if !p.state.Dead? && !p.state.StartRes? {
      HeaderLineData(p, ch);
      HeaderValueData(p, ch);
      if !(p.state.HeaderFieldStart? || p.state.HeaderField? || p.state.HeaderValueStart? || p.state.HeaderValue?
           || p.state.HeaderAlmostDone? || p.state.HeaderValueLws?) {
        ChunkStateData(p, ch);
      }
    }
  }

  lemma MarkByte(d: Data, m: Mark, data: string, i: nat)
    requires !d.NoData? && i < |data| && (m.At? ==> m.pos <= i)
    ensures MarkedBytes(d, if m.At? then m else At(i), data, i + 1)
            == MarkedBytes(d, m, data, i) + ByteEvents(d, data[i])
  {
    var start := if m.At? then m.pos else i;
    assert data[start..i + 1] == data[start..i] + [data[i]];
    BytesAppend(d, data[start..i], [data[i]]);
    assert Bytes(d, [data[i]]) == ByteEvents(d, data[i]);
    assert data[i..i] == [];
  }

  const NoMarks := Marks(Unset, Unset, Unset)

  lemma NothingPending(data: string, i: nat)
    requires i <= |data|
    ensures Pending(NoMarks, data, i) == []
  {
  }

  /** MARK: a mark that is already live stays where it is. */
  function SetMark(m: Mark, i: nat): Mark {
    if m.At? then m else At(i)
  }

  lemma MarkField(m: Marks, data: string, i: nat)
    requires i < |data| && MarksInside(m, i) && m.value.Unset? && m.body.Unset?
    ensures Pending(m.(field := SetMark(m.field, i)), data, i + 1) == Pending(m, data, i) + [FieldByte(data[i])]
  {
    hide Bytes;
    MarkByte(FieldData, m.field, data, i);
  }

  lemma MarkValue(m: Marks, data: string, i: nat)
    requires i < |data| && MarksInside(m, i) && m.field.Unset? && m.body.Unset?
    ensures Pending(m.(value := SetMark(m.value, i)), data, i + 1) == Pending(m, data, i) + [ValueByte(data[i])]
  {
    hide Bytes;
    MarkByte(ValueData, m.value, data, i);
  }

  // ---------------------------------------------------------------- the fold, read forwards

  /** A run whose first `n` bytes gave the events `ev`. */
  function Then(n: nat, ev: seq<Event>, r: Run): Run {
    Run(r.p, ev + r.ev, r.stopped, n + r.used)
  }

  /** The rest of a run after the byte whose result is `r`. */
  function After(r: Run, rest: string): Run {
    if r.stopped then r else Then(1, r.ev, Fold(r.p, rest))
  }

  lemma FoldIsAfter(p: Parser, data: string)
    requires data != []
    ensures Fold(p, data) == After(StepByte(p, data[0]), data[1..])
  {
  }

  lemma ThenThen(n: nat, ev: seq<Event>, k: nat, ev': seq<Event>, r: Run)
    ensures Then(n, ev, Then(k, ev', r)) == Then(n + k, ev + ev', r)
  {
    assert ev + (ev' + r.ev) == (ev + ev') + r.ev;
  }

  lemma BodyByteStep(p: Parser, ch: char)
    requires p.err.Ok? && (p.state.BodyIdentity? || p.state.ChunkData?) && 1 < p.length
    ensures StepByte(p, ch) == Run(p.(length := p.length - 1), [BodyByte(ch)], false, 1)
  {
    hide SwitchVersion, SwitchStatus, SwitchFieldStart, SwitchField, SwitchHeaderValueStart, SwitchHeaderValue,
         SwitchHeaderLineEnd, SwitchHeadersEnd;
  }

  /** Body bytes short of the announced length are copied in bulk: `k` single steps are one subtraction. */
  lemma {:induction false} BulkCopy(p: Parser, data: string, k: nat)
    requires p.err.Ok? && (p.state.BodyIdentity? || p.state.ChunkData?)
    requires k < p.length && k <= |data|
    ensures Fold(p, data) == Then(k, Bytes(BodyData, data[..k]), Fold(p.(length := p.length - k), data[k..]))
    decreases k
  {
    hide StepByte;
    if k == 0 {
      assert data[..0] == [] && data[0..] == data;
    } else {
      var q := p.(length := p.length - 1);
      BodyByteStep(p, data[0]);
      BulkCopy(q, data[1..], k - 1);
      assert data[..k][1..] == data[1..][..k - 1];
      assert data[1..][k - 1..] == data[k..];
      ThenThen(1, [BodyByte(data[0])], k - 1, Bytes(BodyData, data[1..][..k - 1]),
               Fold(p.(length := p.length - k), data[k..]));
    }
  }

  /** Reading until the connection ends takes every byte of the buffer. */
  lemma {:induction false} BulkCopyToEof(p: Parser, data: string, k: nat)
    requires p.err.Ok? && p.state.BodyIdentityEof?
    requires k <= |data|
    ensures Fold(p, data) == Then(k, Bytes(BodyData, data[..k]), Fold(p, data[k..]))
    decreases k
  {
    if k == 0 {
      assert data[..0] == [] && data[0..] == data;
    } else {
      assert StepByte(p, data[0]) == Run(p, [BodyByte(data[0])], false, 1);
      BulkCopyToEof(p, data[1..], k - 1);
      assert data[..k][1..] == data[1..][..k - 1];
      assert data[1..][k - 1..] == data[k..];
      ThenThen(1, [BodyByte(data[0])], k - 1, Bytes(BodyData, data[1..][..k - 1]), Fold(p, data[k..]));
    }
  }

  /** What is left of a run that is about to enter the switch with byte `i`, already counted. */
  function Rest(p: Parser, data: string, i: nat): Run
    requires i < |data|
  {
    After(Reexecute(p, data[i]), data[i + 1..])
  }

  lemma RestStep(p: Parser, data: string, i: nat)
    requires i < |data|
    ensures var m := Switch(p, data[i]); var ev := ByteEvents(m.take, data[i]) + m.notes;
      Rest(p, data, i) == if !m.p.err.Ok? then Run(m.p, ev, true, 0)
                          else if m.again then Then(0, ev, Rest(m.p, data, i))
                          else if m.exit then Run(m.p, ev, true, 1)
                          else Then(1, ev, Fold(m.p, data[i + 1..]))
  {
    hide Switch, Fold;
    var m := Switch(p, data[i]);
    if m.p.err.Ok? && m.again {
      var r := Reexecute(m.p, data[i]);
      SumOfCopy(ByteEvents(m.take, data[i]) + m.notes, r.ev, Fold(r.p, data[i + 1..]).ev);
    }
  }

  lemma RestOfBulk(p: Parser, data: string, i: nat)
    requires i < |data| && p.err.Ok? && BulkState(p.state)
    ensures Rest(p, data, i) == Fold(p, data[i..])
  {
    hide Reexecute;
    FoldIsAfter(p, data[i..]);
    assert data[i..][1..] == data[i + 1..];
  }

  /** The parser after `n` body bytes. */
  function BulkResult(p: Parser, n: nat): Parser
    requires n <= p.length
  {
    var q := p.(length := p.length - n);
    if q.length != 0 then q
    else if q.state.BodyIdentity? then q.(state := MessageDone)
    else q.(state := ChunkDataAlmostDone)
  }

  lemma LastBodyByte(p: Parser, data: string, i: nat)
    requires i < |data| && p.err.Ok? && (p.state.BodyIdentity? || p.state.ChunkData?) && p.length == 1
    ensures var q := BulkResult(p, 1);
      Rest(p, data, i) == if q.state.MessageDone? then Then(0, [BodyByte(data[i])], Rest(q, data, i))
                          else Then(1, [BodyByte(data[i])], Fold(q, data[i + 1..]))
  {
    hide Rest, Fold, SwitchVersion, SwitchStatus, SwitchFieldStart, SwitchField, SwitchHeaderValueStart,
         SwitchHeaderValue, SwitchHeaderLineEnd, SwitchHeadersEnd;
    RestStep(p, data, i);
    assert [BodyByte(data[i])] + [] == [BodyByte(data[i])];
  }

  /** The whole announced length is in the buffer. */
  lemma BulkReadAll(p: Parser, data: string, i: nat)
    requires i < |data| && p.err.Ok? && (p.state.BodyIdentity? || p.state.ChunkData?)
    requires 0 < p.length <= |data| - i
    ensures var ev := Bytes(BodyData, data[i..i + p.length]); var q := BulkResult(p, p.length);
      Rest(p, data, i) == if q.state.MessageDone? then Then(p.length - 1, ev, Rest(q, data, i + p.length - 1))
                          else Then(p.length, ev, Fold(q, data[i + p.length..]))
  {
    hide Rest, Fold, Then, Bytes, BulkResult;
    var n := p.length - 1;
    var last := i + n;
    var one := p.(length := 1);
    var q := BulkResult(p, p.length);
    assert q == BulkResult(one, 1) by { BulkResultOfLast(p); }
    RestOfBulk(p, data, i);
    BulkCopy(p, data[i..], n);
    assert data[i..][..n] == data[i..last] && data[i..][n..] == data[last..];
    RestOfBulk(one, data, last);
    LastBodyByte(one, data, last);
    BytesSnoc(BodyData, data, i, last);
    if q.state.MessageDone? {
      ThenThen(n, Bytes(BodyData, data[i..last]), 0, [BodyByte(data[last])], Rest(q, data, last));
    } else {
      ThenThen(n, Bytes(BodyData, data[i..last]), 1, [BodyByte(data[last])], Fold(q, data[last + 1..]));
    }
  }

  lemma BulkResultOfLast(p: Parser)
    requires 0 < p.length
    ensures BulkResult(p, p.length) == BulkResult(p.(length := 1), 1)
  {
  }

  lemma BytesSnoc(d: Data, data: string, i: nat, last: nat)
    requires i <= last < |data| && !d.NoData?
    ensures Bytes(d, data[i..last + 1]) == Bytes(d, data[i..last]) + ByteEvents(d, data[last])
  {
    assert data[i..last + 1] == data[i..last] + [data[last]];
    BytesAppend(d, data[i..last], [data[last]]);
    assert Bytes(d, [data[last]]) == ByteEvents(d, data[last]);
  }

  lemma BulkRead(p: Parser, data: string, i: nat, n: nat)
    requires i < |data| && Legal(p, 1) && BulkState(p.state)
    requires 0 < n <= |data| - i
    requires if p.state.BodyIdentityEof? then n == |data| - i else n <= p.length
    ensures var ev := Bytes(BodyData, data[i..i + n]);
      if p.state.BodyIdentityEof? then Rest(p, data, i) == Then(n, ev, Fold(p, data[i + n..]))
      else
        var q := BulkResult(p, n);
        Rest(p, data, i) == if q.state.MessageDone? then Then(n - 1, ev, Rest(q, data, i + n - 1))
                            else Then(n, ev, Fold(q, data[i + n..]))
  {
    hide Rest, Fold, Bytes, HeaderLegal, BodyLegal;
    RestOfBulk(p, data, i);
    assert data[i..][..n] == data[i..i + n] && data[i..][n..] == data[i + n..];
    if p.state.BodyIdentityEof? {
      BulkCopyToEof(p, data[i..], n);
    } else if n < p.length {
      BulkCopy(p, data[i..], n);
    } else {
      BulkReadAll(p, data, i);
    }
  }

  lemma MarkBody(m: Marks, data: string, i: nat, j: nat)
    requires i <= j <= |data| && MarksInside(m, i) && m.field.Unset? && m.value.Unset?
    ensures Pending(m.(body := SetMark(m.body, i)), data, j) == Pending(m, data, i) + Bytes(BodyData, data[i..j])
  {
    var start := SetMark(m.body, i).pos;
    assert data[start..j] == data[start..i] + data[i..j];
    BytesAppend(BodyData, data[start..i], data[i..j]);
  }

  class HttpParser {
    var p: Parser
    var calls: seq<Callback>

    constructor (head: bool)
      ensures p == Init(head) && calls == []
      ensures Inv(p)
    {
      p := Init(head);
      calls := [];
    }

    method Notify(c: Callback)
      modifies this`calls
      ensures calls == old(calls) + [c]
      ensures Flat(calls) == Flat(old(calls)) + EventsOf(c)
    {
      FlatSnoc(calls, c);
      calls := calls + [c];
    }

    method NotifyAll(notes: seq<Event>)
      requires notes == [] || notes == [MessageBegin] || notes == [HeadersComplete] || notes == [MessageComplete]
      modifies this`calls
      ensures Flat(calls) == Flat(old(calls)) + notes
    {
      if notes == [MessageBegin] {
        Notify(OnMessageBegin);
      } else if notes == [HeadersComplete] {
        Notify(OnHeadersComplete);
      } else if notes == [MessageComplete] {
        Notify(OnMessageComplete);
      }
    }

    /** Hands the bytes marked as `d` to their callback, if there is such a mark. */
    method FlushMark(d: Data, m: Mark, data: string, i: nat)
      requires !d.NoData?
      requires i <= |data| && (m.At? ==> m.pos <= i)
      modifies this`calls
      ensures Flat(calls) == Flat(old(calls)) + MarkedBytes(d, m, data, i)
    {
      if m.At? {
        var bytes := data[m.pos..i];
        match d {
          case FieldData => Notify(OnHeaderField(bytes));
          case ValueData => Notify(OnHeaderValue(bytes));
          case BodyData => Notify(OnBody(bytes));
        }
      }
    }

    /** Hands all marked bytes before `i` to their callbacks. */
    method Flush(marks: Marks, data: string, i: nat)
      requires i <= |data| && MarksInside(marks, i)
      modifies this`calls
      ensures Flat(calls) == Flat(old(calls)) + Pending(marks, data, i)
    {
      FlushMark(FieldData, marks.field, data, i);
      FlushMark(ValueData, marks.value, data, i);
      FlushMark(BodyData, marks.body, data, i);
      SumAssociates(Flat(old(calls)), MarkedBytes(FieldData, marks.field, data, i),
                    MarkedBytes(ValueData, marks.value, data, i), MarkedBytes(BodyData, marks.body, data, i));
    }

    /** One pass through the switch for a state without a bulk copy: moves the marks and calls the callbacks. */
    method SwitchByte(data: string, i: nat, marks: Marks) returns (m: Move, after: Marks)
      requires i < |data| && p.err.Ok? && !BulkState(p.state)
      requires MarksInside(marks, i) && MarksAgree(marks, p.state)
      modifies this
      ensures m == Switch(old(p), data[i]) && p == m.p
      ensures !m.p.err.Ok? ==> calls == old(calls)
      ensures m.p.err.Ok? ==> MarksInside(after, i + 1) && MarksAgree(after, p.state)
      ensures m.p.err.Ok? && (m.again || m.exit) ==> after == NoMarks && !(m.again && m.exit)
      ensures m.p.err.Ok? ==>
        Flat(calls) + Pending(after, data, i + 1)
          == Flat(old(calls)) + Pending(marks, data, i) + (ByteEvents(m.take, data[i]) + m.notes)
    {
      hide Switch, Pending, Flat;
      var ch := data[i];
      m := Switch(p, ch);
      SwitchData(p, ch);
      var before := p.state;
      p := m.p;
      after := marks;
      if m.p.err.Ok? {
        if m.take.FieldData? {
          after := marks.(field := SetMark(marks.field, i));
          MarkField(marks, data, i);
          SumOfTake(Flat(calls), Pending(marks, data, i), FieldByte(ch));
        } else if m.take.ValueData? {
          after := marks.(value := SetMark(marks.value, i));
          MarkValue(marks, data, i);
          SumOfTake(Flat(calls), Pending(marks, data, i), ValueByte(ch));
        } else {
          Flush(marks, data, i);
          after := NoMarks;
          NothingPending(data, i + 1);
          ghost var flushed := Flat(calls);
          if before.HeaderValueStart? && (ch == CR || ch == LF) {
            Notify(OnHeaderValue("")); // an empty value is marked and reported on the same byte
          }
          NotifyAll(m.notes);
          SumOfNotes(flushed, m.notes);
        }
      }
    }

    /** The bulk copies: as many body bytes as the length and the buffer allow, in one step. */
    method CopyBulk(data: string, i: nat, marks: Marks) returns (j: nat, after: Marks, again: bool)
      requires i < |data| && Legal(p, 1) && BulkState(p.state)
      requires MarksInside(marks, i) && MarksAgree(marks, p.state)
      modifies this
      ensures i <= j < |data| && Legal(p, 1) && (!again ==> Inv(p))
      ensures MarksInside(after, j + 1) && MarksAgree(after, p.state)
      ensures again ==> old(p).state.BodyIdentity? && p.state.MessageDone? && after == NoMarks
      ensures var ev := Bytes(BodyData, data[i..j + 1]);
        && Flat(calls) + Pending(after, data, j + 1) == Flat(old(calls)) + Pending(marks, data, i) + ev
        && Rest(old(p), data, i)
           == if again then Then(j - i, ev, Rest(p, data, j)) else Then(j + 1 - i, ev, Fold(p, data[j + 1..]))
    {
      hide Rest, Pending, Flat, Bytes, Then, Fold;
      var room := |data| - i;
      var toRead := if p.state.BodyIdentityEof? || room < p.length then room else p.length;
      assert !p.state.BodyIdentityEof? ==> p.length != 0 && p.length != NoLength; // the program's assertion
      BulkRead(p, data, i, toRead);
      MarkBody(marks, data, i, i + toRead);
      after := marks.(body := SetMark(marks.body, i));
      j := i + toRead - 1;
      again := false;
      SumOfCopy(Flat(calls), Pending(marks, data, i), Bytes(BodyData, data[i..j + 1]));
      if !p.state.BodyIdentityEof? {
        p := BulkResult(p, toRead);
        if p.state.MessageDone? {
          // the data callback includes the current byte, which is then executed again
          Flush(after, data, j + 1);
          after := NoMarks;
          NothingPending(data, j + 1);
          again := true;
        }
      }
    }

    /** The switch with its re-executions on byte `i`. `ev` collects what the byte (or the bulk copy) gave. */
    method ExecuteByte(data: string, i: nat, marks: Marks)
      returns (j: nat, after: Marks, stop: bool, ghost ev: seq<Event>)
      requires i < |data| && Legal(p, 1)
      requires MarksInside(marks, i) && MarksAgree(marks, p.state)
      modifies this
      ensures !stop ==>
        && i <= j < |data| && Inv(p) && MarksInside(after, j + 1) && MarksAgree(after, p.state)
        && Rest(old(p), data, i) == Then(j + 1 - i, ev, Fold(p, data[j + 1..]))
        && Flat(calls) + Pending(after, data, j + 1) == Flat(old(calls)) + Pending(marks, data, i) + ev
      ensures stop ==>
        && i <= j <= |data| && Rest(old(p), data, i) == Run(p, ev, true, j - i)
        && (p.err.Ok? ==> Inv(p))
        && Flat(calls) <= Flat(old(calls)) + Pending(marks, data, i) + ev
        && (p.err.Ok? ==> Flat(calls) == Flat(old(calls)) + Pending(marks, data, i) + ev)
    {
      hide Rest, Then, Fold, Pending, Flat, Switch, Reexecute, Bytes;
      j, after, stop, ev := i, marks, false, [];
      ghost var base := Flat(calls) + Pending(marks, data, i);
      ghost var whole := Rest(p, data, i);
      ThenNothing(whole);
      var again := true;
      while again
        invariant !stop && i <= j < |data|
        invariant again ==> Legal(p, 1) && MarksInside(after, j) && MarksAgree(after, p.state)
        invariant again ==> whole == Then(j - i, ev, Rest(p, data, j))
        invariant again ==> Flat(calls) + Pending(after, data, j) == base + ev
        invariant !again ==> Inv(p) && MarksInside(after, j + 1) && MarksAgree(after, p.state)
        invariant !again ==> whole == Then(j + 1 - i, ev, Fold(p, data[j + 1..]))
        invariant !again ==> Flat(calls) + Pending(after, data, j + 1) == base + ev
        decreases again, if again then |data| - j else 0, Rank(p.state)
      {
        if BulkState(p.state) {
          ghost var start, before := j, p;
          j, after, again := CopyBulk(data, j, after);
          ghost var copied := Bytes(BodyData, data[start..j + 1]);
          ThenThen(start - i, ev, if again then j - start else j + 1 - start, copied,
                   if again then Rest(p, data, j) else Fold(p, data[j + 1..]));
          SumOfCopy(base, ev, copied);
          ev := ev + copied;
        } else {
          var m;
          ghost var marked := Pending(after, data, j);
          RestStep(p, data, j);
          SwitchKeepsLegal(p, data[j]);
          m, after := SwitchByte(data, j, after);
          ghost var moved := ByteEvents(m.take, data[j]) + m.notes;
          SumOfCopy(base, ev, moved);
          ghost var seen := ev;
          ev := ev + moved;
          if !p.err.Ok? {
            ThenRun(j - i, seen, p, moved, 0);
            PrefixOfSum(Flat(calls), marked, base, seen, moved);
            return j, after, true, ev;
          }
          if m.exit {
            ThenRun(j - i, seen, p, moved, 1);
            NothingPending(data, j + 1);
            return j + 1, after, true, ev;
          }
          again := m.again;
          ThenThen(j - i, seen, if again then 0 else 1, moved,
                   if again then Rest(p, data, j) else Fold(p, data[j + 1..]));
        }
        if again {
          NothingPending(data, j);
          NothingPending(data, j + 1);
        }
      }
    }

    /** http_parser_execute: the number of bytes parsed. An empty buffer stands for the end of the connection. */
    method Execute(data: string) returns (n: nat)
      requires p.err.Ok? ==> Inv(p)
      modifies this
      ensures p.err.Ok? ==> Inv(p)
      ensures !old(p).err.Ok? ==> n == 0 && p == old(p) && calls == old(calls)
      ensures old(p).err.Ok? && data == [] ==>
        var r := AtEof(old(p)); p == r.p && n == r.used && Flat(calls) == Flat(old(calls)) + r.ev
      ensures old(p).err.Ok? && data != [] ==>
        var r := Fold(old(p), data);
        && p == r.p && n == r.used
        && Flat(calls) <= Flat(old(calls)) + r.ev
        && (p.err.Ok? ==> Flat(calls) == Flat(old(calls)) + r.ev)
    {
      hide Fold, Legal;
      if !p.err.Ok? {
        return 0;
      }
      if data == [] {
        n := ExecuteEof();
      } else {
        n := ExecuteBuffer(data);
      }
    }

    method ExecuteEof() returns (n: nat)
      requires Inv(p)
      modifies this
      ensures p.err.Ok? ==> Inv(p)
      ensures var r := AtEof(old(p)); p == r.p && n == r.used && Flat(calls) == Flat(old(calls)) + r.ev
      ensures match old(p).state
        case BodyIdentityEof => n == 0 && p == old(p) && Flat(calls) == Flat(old(calls)) + [MessageComplete]
        case StartRes => n == 0 && p == old(p) && Flat(calls) == Flat(old(calls))
        case Dead => n == 0 && p == old(p) && Flat(calls) == Flat(old(calls))
        case _ => n == 1 && p == old(p).(err := InvalidEofState) && Flat(calls) == Flat(old(calls))
    {
      if p.state.BodyIdentityEof? {
        NotifyAll([MessageComplete]);
        return 0;
      }
      assert Flat(calls) == Flat(calls) + [];
      if p.state.Dead? || p.state.StartRes? {
        return 0;
      }
      p := p.(err := InvalidEofState);
      return 1;
    }

    /** Counts one header byte; false if there are too many. */
    method CountByte() returns (fits: bool)
      modifies this`p
      ensures p == Count(old(p)) && fits == (p.err == old(p).err)
      requires p.err.Ok?
    {
      if ParsingHeader(p.state) {
        p := p.(nread := p.nread + 1);
        if p.nread > MaxHeaderSize {
          p := p.(err := HeaderOverflow);
          return false;
        }
      }
      return true;
    }

    method ExecuteBuffer(data: string) returns (n: nat)
      requires Inv(p) && data != []
      modifies this
      ensures p.err.Ok? ==> Inv(p)
      ensures var r := Fold(old(p), data);
        && p == r.p && n == r.used
        && Flat(calls) <= Flat(old(calls)) + r.ev
        && (p.err.Ok? ==> Flat(calls) == Flat(old(calls)) + r.ev)
    {
      hide Rest, Then, Pending, Flat, Bytes, HeaderLegal, BodyLegal, Reexecute, Switch, Count, Fold;
      var marks := Marks(if p.state.HeaderField? then At(0) else Unset,
                         if p.state.HeaderValue? then At(0) else Unset, Unset);
      StartPending(marks, data);
      ghost var whole, base, ev := Fold(p, data), Flat(calls), [];
      assert data[0..] == data;
      ThenNothing(whole);
      var i := 0;
      while i < |data|
        invariant i <= |data| && Inv(p)
        invariant MarksInside(marks, i) && MarksAgree(marks, p.state)
        invariant whole == Then(i, ev, Fold(p, data[i..]))
        invariant Flat(calls) + Pending(marks, data, i) == base + ev
      {
        ghost var q := p;
        StepKeepsInv(p, data[i]);
        var fits := CountByte();
        if !fits {
          CountOverflows(q, data, i);
          ThenRun(i, ev, p, [], 0);
          PrefixOfSum(Flat(calls), Pending(marks, data, i), base, ev, []);
          return i;
        }
        CountKeepsState(q);
        CountedRest(q, data, i);
        var j, stop;
        ghost var more;
        j, marks, stop, more := ExecuteByte(data, i, marks);
        SumOfCopy(base, ev, more);
        if stop {
          ThenRun(i, ev, p, more, j - i);
          return j;
        }
        ThenThen(i, ev, j + 1 - i, more, Fold(p, data[j + 1..]));
        ev := ev + more;
        i := j + 1;
      }
      // the program's assertion: at most one mark is live
      assert (if marks.field.At? then 1 else 0) + (if marks.value.At? then 1 else 0)
             + (if marks.body.At? then 1 else 0) <= 1;
      assert data[i..] == [];
      ThenDone(i, ev, p);
      Flush(marks, data, i);
      return |data|;
    }
  }

  /** What the parser does when the connection ends. */
  function AtEof(p: Parser): Run {
    if p.state.BodyIdentityEof? then Run(p, [MessageComplete], false, 0)
    else if p.state.Dead? || p.state.StartRes? then Run(p, [], false, 0)
    else Run(p.(err := InvalidEofState), [], true, 1)
  }

  lemma StartPending(m: Marks, data: string)
    requires (m.field.At? ==> m.field.pos == 0) && (m.value.At? ==> m.value.pos == 0) && m.body.Unset?
    ensures Pending(m, data, 0) == []
  {
    assert data[0..0] == [];
  }

  lemma CountKeepsState(p: Parser)
    ensures Count(p).state == p.state
  {
  }

  lemma CountOverflows(p: Parser, data: string, i: nat)
    requires i < |data| && !Count(p).err.Ok?
    ensures Fold(p, data[i..]) == Run(Count(p), [], true, 0)
  {
  }

  lemma CountedRest(p: Parser, data: string, i: nat)
    requires i < |data| && Count(p).err.Ok?
    ensures Fold(p, data[i..]) == Rest(Count(p), data, i)
  {
    assert data[i..][1..] == data[i + 1..];
  }

  lemma ThenDone(n: nat, ev: seq<Event>, p: Parser)
    ensures Then(n, ev, Fold(p, [])) == Run(p, ev, false, n)
  {
  }

  lemma ThenNothing(r: Run)
    ensures Then(0, [], r) == r
  {
    assert [] + r.ev == r.ev;
  }

  lemma ThenRun(n: nat, ev: seq<Event>, p: Parser, more: seq<Event>, k: nat)
    ensures Then(n, ev, Run(p, more, true, k)) == Run(p, ev + more, true, n + k)
  {
  }

  lemma PrefixOfSum(s: seq<Event>, marked: seq<Event>, base: seq<Event>, ev: seq<Event>, more: seq<Event>)
    requires s + marked == base + ev
    ensures s <= base + (ev + more)
  {
    assert base + (ev + more) == s + marked + more;
  }

  lemma SumOfCopy(s: seq<Event>, a: seq<Event>, b: seq<Event>)
    ensures s + (a + b) == s + a + b
    ensures s + (a + b) + [] == s + a + b
  {
  }

  lemma SumOfTake(s: seq<Event>, a: seq<Event>, e: Event)
    ensures s + (a + [e]) == s + a + ([e] + [])
  {
  }

  lemma SumOfNotes(s: seq<Event>, notes: seq<Event>)
    ensures s + [] + notes + [] == s + ([] + notes)
  {
  }

  lemma SumAssociates(s: seq<Event>, a: seq<Event>, b: seq<Event>, c: seq<Event>)
    ensures s + a + b + c == s + (a + b + c)
  {
  }
}
