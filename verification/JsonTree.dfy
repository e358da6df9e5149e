/** JSON values, the text that is written for them, and the values that text stands for. */
module JsonTree {
  import opened Bytes
  import opened JsonNumber
  import opened JsonString

  const COMMA: byte := 44
  const COLON: byte := 58
  const OPEN_ARRAY: byte := 91
  const CLOSE_ARRAY: byte := 93
  const OPEN_OBJECT: byte := 123
  const CLOSE_OBJECT: byte := 125
  const NULL: seq<byte> := [110, 117, 108, 108]
  const TRUE: seq<byte> := [116, 114, 117, 101]
  const FALSE: seq<byte> := [102, 97, 108, 115, 101]

  /** What a JSON value means: numbers by value, floating-point ones by their text, objects as lists of members. */
  datatype Tree =
    | TNull
    | TBool(b: bool)
    | TInt(i: int)
    | TDouble(text: seq<byte>)
    | TString(s: seq<byte>)
    | TArray(elements: seq<Tree>)
    | TObject(names: seq<seq<byte>>, values: seq<Tree>)

  /** Values that can be written and read back: 64-bit integers, and as many values as names. */
  predicate Writable(t: Tree)
    decreases t
  {
    match t
    case TInt(i) => InRange(i)
    case TDouble(_) => false
    case TArray(ts) => forall i | 0 <= i < |ts| :: Writable(ts[i])
    case TObject(ns, ts) => |ns| == |ts| && forall i | 0 <= i < |ts| :: Writable(ts[i])
    case _ => true
  }

  // ---------------------------------------------------------------- writing

  function Written(t: Tree): (s: seq<byte>)
    requires Writable(t)
    decreases t, 1, 0
  {
    match t
    case TNull => NULL
    case TBool(b) => if b then TRUE else FALSE
    case TInt(i) => Printed(i)
    case TString(s) => Quoted(s)
    case TArray(ts) => [OPEN_ARRAY] + Elements(t, 0) + [CLOSE_ARRAY]
    case TObject(_, ts) => [OPEN_OBJECT] + Members(t, 0) + [CLOSE_OBJECT]
  }

  /** The elements from the `i`th on. */
  function Elements(t: Tree, i: nat): seq<byte>
    requires t.TArray? && Writable(t) && i <= |t.elements|
    decreases t, 0, |t.elements| - i
  {
    if i == |t.elements| then []
    else Written(t.elements[i]) + if i + 1 == |t.elements| then [] else [COMMA] + Elements(t, i + 1)
  }

  function Members(t: Tree, i: nat): seq<byte>
    requires t.TObject? && Writable(t) && i <= |t.values|
    decreases t, 0, |t.values| - i
  {
    if i == |t.values| then []
    else
      Quoted(t.names[i]) + [COLON] + Written(t.values[i])
      + if i + 1 == |t.values| then [] else [COMMA] + Members(t, i + 1)
  }

  // ---------------------------------------------------------------- reading

  predicate IsSpace(c: byte) {
    c == 32 || c == 10 || c == 13 || c == 9
  }

  function Skip(s: seq<byte>): (r: seq<byte>)
    ensures |r| <= |s| && (s != [] && !IsSpace(s[0]) ==> r == s)
  {
    if s != [] && IsSpace(s[0]) then Skip(s[1..]) else s
  }

  function Expect<T>(s: seq<byte>, word: seq<byte>, t: T): Result<T> {
    if word <= s then Ok(t, s[|word|..]) else Err
  }

  function NumberTree(n: Number): Tree {
    if n.Double? then TDouble(n.text) else TInt(ValueOf(n))
  }

  /** The value that a text begins with. */
  function TreeAt(s: seq<byte>): (r: Result<Tree>)
    ensures r.Ok? ==> |r.rest| < |s|
    decreases |s|, 1
  {
    var c := Peek(s);
    if c == NULL[0] then Expect(s, NULL, TNull)
    else if c == TRUE[0] then Expect(s, TRUE, TBool(true))
    else if c == FALSE[0] then Expect(s, FALSE, TBool(false))
    else if c == QUOTE then
      var r := CharsAt(s[1..]);
      if r.Err? then Err else Ok(TString(r.value), r.rest)
    else if c == OPEN_OBJECT then ObjectAt(s[1..])
    else if c == OPEN_ARRAY then ArrayAt(s[1..])
    else
      var r := NumberAt(s);
      if r.Err? then Err else Ok(NumberTree(r.value), r.rest)
  }

  function ArrayAt(s: seq<byte>): (r: Result<Tree>)
    ensures r.Ok? ==> |r.rest| < |s|
    decreases |s|, 3
  {
    var a := Skip(s);
    if Peek(a) == CLOSE_ARRAY then Ok(TArray([]), a[1..])
    else
      var r := ElementsAt(a);
      if r.Err? then Err else Ok(TArray(r.value), r.rest)
  }

  /** At least one element, up to the closing bracket. */
  function ElementsAt(s: seq<byte>): (r: Result<seq<Tree>>)
    ensures r.Ok? ==> |r.rest| < |s|
    decreases |s|, 2
  {
    var v := TreeAt(s);
    if v.Err? then Err
    else
      var a := Skip(v.rest);
      if Peek(a) == COMMA then
        var more := ElementsAt(Skip(a[1..]));
        if more.Err? then Err else Ok([v.value] + more.value, more.rest)
      else if Peek(a) == CLOSE_ARRAY then Ok([v.value], a[1..])
      else Err
  }

  function ObjectAt(s: seq<byte>): (r: Result<Tree>)
    ensures r.Ok? ==> |r.rest| < |s|
    decreases |s|, 3
  {
    var a := Skip(s);
    if Peek(a) == CLOSE_OBJECT then Ok(TObject([], []), a[1..])
    else
      var r := MembersAt(a);
      if r.Err? then Err else Ok(TObject(r.value.0, r.value.1), r.rest)
  }

  /** A name, a colon, and a value. */
  function MemberAt(s: seq<byte>): (r: Result<(seq<byte>, Tree)>)
    ensures r.Ok? ==> |r.rest| < |s|
    decreases |s|, 1
  {
    if Peek(s) != QUOTE then Err
    else
      var name := CharsAt(s[1..]);
      if name.Err? then Err
      else
        var a := Skip(name.rest);
        if Peek(a) != COLON then Err
        else
          var v := TreeAt(Skip(a[1..]));
          if v.Err? then Err else Ok((name.value, v.value), v.rest)
  }

  function MembersAt(s: seq<byte>): (r: Result<(seq<seq<byte>>, seq<Tree>)>)
    ensures r.Ok? ==> |r.rest| < |s| && |r.value.0| == |r.value.1|
    decreases |s|, 2
  {
    var m := MemberAt(s);
    if m.Err? then Err
    else
      var a := Skip(m.rest);
      if Peek(a) == COMMA then
        var more := MembersAt(Skip(a[1..]));
        if more.Err? then Err else Ok(([m.value.0] + more.value.0, [m.value.1] + more.value.1), more.rest)
      else if Peek(a) == CLOSE_OBJECT then Ok(([m.value.0], [m.value.1]), a[1..])
      else Err
  }

  /** A whole text: one array or object, and nothing but white space around it. */
  function Document(s: seq<byte>): Result<Tree> {
    var a := Skip(s);
    if Peek(a) != OPEN_OBJECT && Peek(a) != OPEN_ARRAY then Err
    else
      var r := TreeAt(a);
      if r.Err? || Peek(Skip(r.rest)) != 0 then Err else r
  }

  // ---------------------------------------------------------------- round trip

  /** What is written is read back, whatever stands behind it, as long as that does not continue a number. */
  lemma {:induction false} TreeRoundTrip(t: Tree, rest: seq<byte>)
    requires Writable(t) && EndsNumber(rest)
    ensures TreeAt(Written(t) + rest) == Ok(t, rest)
    decreases t, 1, 0
  {
    hide TreeAt, Written, CharsAt, NumberAt, Escaped, Digits;
    match t
    case TNull => WordRoundTrip(t, rest);
    case TBool(_) => WordRoundTrip(t, rest);
    case TInt(i) => IntRoundTrip(i, rest);
    case TString(s) => QuotedRoundTrip(s, rest);
    case TArray(ts) =>
      if ts != [] {
        ElementsRoundTrip(t, 0, rest);
        assert ts[0..] == ts;
      }
      ArrayText(t, rest);
    case TObject(ns, ts) =>
      if ts != [] {
        MembersRoundTrip(t, 0, rest);
        assert ts[0..] == ts && ns[0..] == ns;
      }
      ObjectText(t, rest);
  }

  lemma WordRoundTrip(t: Tree, rest: seq<byte>)
    requires t.TNull? || t.TBool?
    ensures TreeAt(Written(t) + rest) == Ok(t, rest)
  {
    var w := Written(t);
    assert w <= w + rest && (w + rest)[|w|..] == rest;
  }

  lemma IntRoundTrip(i: int, rest: seq<byte>)
    requires InRange(i) && EndsNumber(rest)
    ensures TreeAt(Written(TInt(i)) + rest) == Ok(TInt(i), rest)
  {
    hide Digits, NumberAt;
    NumberRoundTrip(i, rest);
    var c := Peek(Printed(i) + rest);
    assert c == MINUS || IsDigit(c);
  }

  lemma QuotedRoundTrip(s: seq<byte>, rest: seq<byte>)
    ensures TreeAt(Quoted(s) + rest) == Ok(TString(s), rest) && Written(TString(s)) == Quoted(s)
  {
    hide CharsAt, Escaped;
    StringRoundTrip(s, rest);
    assert (Quoted(s) + rest)[1..] == Escaped(s) + [QUOTE] + rest;
  }

  lemma ArrayText(t: Tree, rest: seq<byte>)
    requires t.TArray? && Writable(t)
    requires t.elements != [] ==> ElementsAt(Elements(t, 0) + [CLOSE_ARRAY] + rest) == Ok(t.elements, rest)
    requires t.elements != [] ==> Begins(Elements(t, 0))
    ensures TreeAt(Written(t) + rest) == Ok(t, rest)
  {
    hide Elements, ElementsAt;
    var s := Elements(t, 0) + [CLOSE_ARRAY] + rest;
    assert Written(t) + rest == [OPEN_ARRAY] + s && ([OPEN_ARRAY] + s)[1..] == s;
    if t.elements == [] {
      NoElements(t);
      assert s == [CLOSE_ARRAY] + rest && s[1..] == rest;
    }
  }

  lemma NoElements(t: Tree)
    requires t.TArray? && t.elements == []
    ensures Elements(t, 0) == []
  {
  }

  /** Where a value may begin. */
  predicate Begins(s: seq<byte>) {
    s != [] && !IsSpace(s[0]) && s[0] != CLOSE_ARRAY && s[0] != CLOSE_OBJECT
  }

  lemma WrittenBegins(t: Tree)
    requires Writable(t)
    ensures Begins(Written(t))
  {
    hide Elements, Members, Digits, Escaped;
    if t.TInt? {
      assert t.i >= 0 ==> Printed(t.i) == Digits(t.i) && IsDigit(Digits(t.i)[0]);
    }
  }

  lemma {:induction false} ElementsRoundTrip(t: Tree, i: nat, rest: seq<byte>)
    requires t.TArray? && Writable(t) && i < |t.elements|
    ensures ElementsAt(Elements(t, i) + [CLOSE_ARRAY] + rest) == Ok(t.elements[i..], rest)
    ensures Begins(Elements(t, i))
    decreases t, 0, |t.elements| - i
  {
    hide ElementsAt, TreeAt, Written, Begins;
    var v := t.elements[i];
    WrittenBegins(v);
    var more := if i + 1 == |t.elements| then [] else [COMMA] + Elements(t, i + 1);
    var tail := more + [CLOSE_ARRAY] + rest;
    TreeRoundTrip(v, tail);
    BeginsLonger(Written(v), more);
    assert Elements(t, i) + [CLOSE_ARRAY] + rest == Written(v) + tail;
    if i + 1 == |t.elements| {
      assert tail == [CLOSE_ARRAY] + rest && tail[1..] == rest;
      LastElement(Written(v) + tail, v, rest);
      assert t.elements[i..] == [v];
    } else {
      ElementsRoundTrip(t, i + 1, rest);
      var next := Elements(t, i + 1) + [CLOSE_ARRAY] + rest;
      assert tail == [COMMA] + next && tail[1..] == next;
      BeginsLonger(Elements(t, i + 1), [CLOSE_ARRAY] + rest);
      assert Elements(t, i + 1) + ([CLOSE_ARRAY] + rest) == next;
      OneMoreElement(Written(v) + tail, v, next);
      assert t.elements[i..] == [v] + t.elements[i + 1..];
    }
  }

  lemma BeginsLonger(s: seq<byte>, more: seq<byte>)
    requires Begins(s)
    ensures Begins(s + more) && Skip(s + more) == s + more
  {
  }

  lemma LastElement(s: seq<byte>, v: Tree, rest: seq<byte>)
    requires TreeAt(s) == Ok(v, [CLOSE_ARRAY] + rest)
    ensures ElementsAt(s) == Ok([v], rest)
  {
    hide TreeAt;
    var a := [CLOSE_ARRAY] + rest;
    assert a[1..] == rest && Skip(a) == a;
  }

  lemma OneMoreElement(s: seq<byte>, v: Tree, next: seq<byte>)
    requires TreeAt(s) == Ok(v, [COMMA] + next) && Skip(next) == next
    ensures var more := ElementsAt(next);
      ElementsAt(s) == if more.Err? then Err else Ok([v] + more.value, more.rest)
  {
    hide TreeAt;
    var a := [COMMA] + next;
    assert a[1..] == next && Skip(a) == a;
  }

  lemma ObjectText(t: Tree, rest: seq<byte>)
    requires t.TObject? && Writable(t)
    requires t.values != [] ==> MembersAt(Members(t, 0) + [CLOSE_OBJECT] + rest) == Ok((t.names, t.values), rest)
    requires t.values != [] ==> Begins(Members(t, 0))
    ensures TreeAt(Written(t) + rest) == Ok(t, rest)
  {
    hide Members, MembersAt;
    var s := Members(t, 0) + [CLOSE_OBJECT] + rest;
    assert Written(t) + rest == [OPEN_OBJECT] + s && ([OPEN_OBJECT] + s)[1..] == s;
    if t.values == [] {
      NoMembers(t);
      assert s == [CLOSE_OBJECT] + rest && s[1..] == rest;
    }
  }

  lemma NoMembers(t: Tree)
    requires t.TObject? && Writable(t) && t.values == []
    ensures Members(t, 0) == [] && t.names == []
  {
  }

  lemma {:induction false} MembersRoundTrip(t: Tree, i: nat, rest: seq<byte>)
    requires t.TObject? && Writable(t) && i < |t.values|
    ensures MembersAt(Members(t, i) + [CLOSE_OBJECT] + rest) == Ok((t.names[i..], t.values[i..]), rest)
    ensures Begins(Members(t, i))
    decreases t, 0, |t.values| - i
  {
    hide MembersAt, MemberAt, TreeAt, Written, Begins, Quoted;
    var n, v := t.names[i], t.values[i];
    var more := if i + 1 == |t.values| then [] else [COMMA] + Members(t, i + 1);
    var tail := more + [CLOSE_OBJECT] + rest;
    TreeRoundTrip(v, tail);
    MemberRoundTrip(n, v, tail);
    var one := Quoted(n) + [COLON] + Written(v);
    BeginsLonger(one, more);
    assert Members(t, i) + [CLOSE_OBJECT] + rest == one + tail;
    if i + 1 == |t.values| {
      assert tail == [CLOSE_OBJECT] + rest;
      LastMember(one + tail, n, v, rest);
      assert t.values[i..] == [v] && t.names[i..] == [n];
    } else {
      MembersRoundTrip(t, i + 1, rest);
      var next := Members(t, i + 1) + [CLOSE_OBJECT] + rest;
      assert tail == [COMMA] + next;
      BeginsLonger(Members(t, i + 1), [CLOSE_OBJECT] + rest);
      assert Members(t, i + 1) + ([CLOSE_OBJECT] + rest) == next;
      OneMoreMember(one + tail, n, v, next);
      assert t.values[i..] == [v] + t.values[i + 1..] && t.names[i..] == [n] + t.names[i + 1..];
    }
  }

  lemma MemberRoundTrip(n: seq<byte>, v: Tree, tail: seq<byte>)
    requires Writable(v) && TreeAt(Written(v) + tail) == Ok(v, tail)
    ensures MemberAt(Quoted(n) + [COLON] + Written(v) + tail) == Ok((n, v), tail)
    ensures Begins(Quoted(n) + [COLON] + Written(v))
  {
    hide MemberAt, TreeAt, Written, CharsAt, Escaped;
    var value := Written(v) + tail;
    StringRoundTrip(n, [COLON] + value);
    WrittenBegins(v);
    BeginsLonger(Written(v), tail);
    MemberSteps(Escaped(n) + [QUOTE] + ([COLON] + value), n, value, v, tail);
    MemberText(Escaped(n), Written(v), tail);
  }

  lemma MemberSteps(s: seq<byte>, n: seq<byte>, value: seq<byte>, v: Tree, tail: seq<byte>)
    requires CharsAt(s) == Ok(n, [COLON] + value) && Skip(value) == value && TreeAt(value) == Ok(v, tail)
    ensures MemberAt([QUOTE] + s) == Ok((n, v), tail)
  {
    hide TreeAt, CharsAt;
    assert ([QUOTE] + s)[1..] == s && ([COLON] + value)[1..] == value;
  }

  lemma MemberText(name: seq<byte>, value: seq<byte>, tail: seq<byte>)
    ensures [QUOTE] + name + [QUOTE] + [COLON] + value + tail
         == [QUOTE] + (name + [QUOTE] + ([COLON] + (value + tail)))
  {
  }

  lemma LastMember(s: seq<byte>, n: seq<byte>, v: Tree, rest: seq<byte>)
    requires MemberAt(s) == Ok((n, v), [CLOSE_OBJECT] + rest)
    ensures MembersAt(s) == Ok(([n], [v]), rest)
  {
    hide MemberAt;
    var a := [CLOSE_OBJECT] + rest;
    assert a[1..] == rest && Skip(a) == a;
  }

  lemma OneMoreMember(s: seq<byte>, n: seq<byte>, v: Tree, next: seq<byte>)
    requires MemberAt(s) == Ok((n, v), [COMMA] + next) && Skip(next) == next
    ensures var more := MembersAt(next);
      MembersAt(s) == if more.Err? then Err else Ok(([n] + more.value.0, [v] + more.value.1), more.rest)
  {
    hide MemberAt;
    var a := [COMMA] + next;
    assert a[1..] == next && Skip(a) == a;
  }

  /** A whole text is read back as the value that it was written for. */
  lemma DocumentRoundTrip(t: Tree)
    requires Writable(t) && (t.TArray? || t.TObject?)
    ensures Document(Written(t)) == Ok(t, [])
  {
    hide TreeAt, Elements, Members;
    TreeRoundTrip(t, []);
    assert Written(t) + [] == Written(t);
    WrittenBegins(t);
  }
}
