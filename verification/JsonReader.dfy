/** The parser and the document that it drives: values are pushed on a stack and folded when a bracket closes. */
module JsonReader {
  import opened Bytes
  import opened JsonNumber
  import opened JsonString
  import opened JsonTree
  import opened JsonDom

  function Pairs(vs: seq<Value>): seq<Member>
    requires |vs| % 2 == 0
  {
    seq(|vs| / 2, i requires 0 <= i < |vs| / 2 => Member(vs[2 * i], vs[2 * i + 1]))
  }

  ghost predicate Means(v: Value, t: Tree) {
    WellFormed(v) && Meaning(v) == t
  }

  /** One more value on the stack, and it means `t`. */
  ghost predicate Pushed(before: seq<Value>, after: seq<Value>, t: Tree) {
    |after| == |before| + 1 && after[..|before|] == before && Means(after[|before|], t)
  }

  class DocumentStack {
    var stack: seq<Value>

    constructor ()
      ensures stack == []
    {
      stack := [];
    }

    method Push(v: Value)
      modifies this
      ensures stack == old(stack) + [v]
    {
      stack := stack + [v];
    }

    /** The last `count` values become the elements of the array below them. */
    method EndArray(count: nat)
      requires |stack| > count && stack[|stack| - count - 1].Array?
      modifies this
      ensures stack == old(stack)[..|old(stack)| - count - 1] + [Array(old(stack)[|old(stack)| - count..])]
    {
      var elements := stack[|stack| - count..];
      stack := stack[..|stack| - count];
      stack := stack[..|stack| - 1] + [Array(elements)];
    }

    /** The last `2 * count` values become the members of the object below them. */
    method EndObject(count: nat)
      requires |stack| > 2 * count && stack[|stack| - 2 * count - 1].Object?
      modifies this
      ensures stack == old(stack)[..|old(stack)| - 2 * count - 1]
                       + [Object(Pairs(old(stack)[|old(stack)| - 2 * count..]))]
    {
      var members := Pairs(stack[|stack| - 2 * count..]);
      stack := stack[..|stack| - 2 * count];
      stack := stack[..|stack| - 1] + [Object(members)];
    }
  }

  method SkipWhitespace(s: seq<byte>) returns (r: seq<byte>)
    ensures r == Skip(s)
  {
    r := s;
    while r != [] && IsSpace(r[0])
      invariant Skip(s) == Skip(r)
      decreases |r|
    {
      r := r[1..];
    }
  }

  function NumberValue(n: Number): Value {
    match n
    case Int(i) => OfInt(i)
    case Uint(u) => OfUint(u)
    case Int64(i) => OfInt64(i)
    case Uint64(u) => OfUint64(u)
    case Double(text) => Floating(text)
  }

  /** The flags of a parsed number tell the truth. */
  lemma NumberMeans(s: seq<byte>)
    requires NumberAt(s).Ok?
    ensures var n := NumberAt(s).value; WellFormed(NumberValue(n)) && Meaning(NumberValue(n)) == NumberTree(n)
  {
    hide Decimal, Fraction, Exponent, IntegerPart;
  }

  lemma PushedOne(stack: seq<Value>, v: Value)
    requires WellFormed(v)
    ensures Pushed(stack, stack + [v], Meaning(v))
  {
  }

  method ParseValue(s: seq<byte>, doc: DocumentStack) returns (ok: bool, rest: seq<byte>)
    modifies doc
    ensures var r := TreeAt(s); ok == r.Ok? && (ok ==> rest == r.rest && Pushed(old(doc.stack), doc.stack, r.value))
    decreases |s|, 1
  {
    hide Pushed, CharsAt, NumberAt, ArrayAt, ObjectAt, WellFormed, Meaning;
    var c := Peek(s);
    ok, rest := false, s;
    if c == NULL[0] {
      ok, rest := ParseWord(s, doc, NULL, Null);
    } else if c == TRUE[0] {
      ok, rest := ParseWord(s, doc, TRUE, Bool(true));
    } else if c == FALSE[0] {
      ok, rest := ParseWord(s, doc, FALSE, Bool(false));
    } else if c == QUOTE {
      ok, rest := ParseText(s, doc);
    } else if c == OPEN_OBJECT {
      ok, rest := ParseObject(s[1..], doc);
    } else if c == OPEN_ARRAY {
      ok, rest := ParseArray(s[1..], doc);
    } else {
      ok, rest := ParseNumberValue(s, doc);
    }
    WordMeanings();
  }

  lemma WordMeanings()
    ensures WellFormed(Null) && Meaning(Null) == TNull
    ensures forall b :: WellFormed(Bool(b)) && Meaning(Bool(b)) == TBool(b)
  {
  }

  method ParseWord(s: seq<byte>, doc: DocumentStack, word: seq<byte>, v: Value) returns (ok: bool, rest: seq<byte>)
    requires WellFormed(v) && word != []
    modifies doc
    ensures ok == (word <= s) && (ok ==> rest == s[|word|..] && Pushed(old(doc.stack), doc.stack, Meaning(v)))
  {
    rest := s;
    var i := 0;
    while i < |word|
      invariant 0 <= i <= |word| && i <= |s| && word[..i] == s[..i]
    {
      if Peek(s[i..]) != word[i] || i == |s| {
        return false, s;
      }
      i := i + 1;
    }
    PushedOne(doc.stack, v);
    doc.Push(v);
    ok, rest := true, s[i..];
  }

  method ParseText(s: seq<byte>, doc: DocumentStack) returns (ok: bool, rest: seq<byte>)
    requires Peek(s) == QUOTE && s != []
    modifies doc
    ensures var r := CharsAt(s[1..]);
      ok == r.Ok? && (ok ==> rest == r.rest && doc.stack == old(doc.stack) + [String(r.value)]
                             && Pushed(old(doc.stack), doc.stack, TString(r.value)))
  {
    hide CharsAt;
    var r := ParseString(s[1..]);
    ok, rest := r.Ok?, s;
    if r.Ok? {
      PushedOne(doc.stack, String(r.value));
      doc.Push(String(r.value));
      rest := r.rest;
    }
  }

  method ParseNumberValue(s: seq<byte>, doc: DocumentStack) returns (ok: bool, rest: seq<byte>)
    modifies doc
    ensures var r := NumberAt(s);
      ok == r.Ok? && (ok ==> rest == r.rest && Pushed(old(doc.stack), doc.stack, NumberTree(r.value)))
  {
    hide NumberAt;
    var r := ParseNumber(s);
    ok, rest := r.Ok?, s;
    if r.Ok? {
      NumberMeans(s);
      PushedOne(doc.stack, NumberValue(r.value));
      doc.Push(NumberValue(r.value));
      rest := r.rest;
    }
  }

  function Prefixed(ts: seq<Tree>, r: Result<seq<Tree>>): Result<seq<Tree>> {
    if r.Err? then Err else Ok(ts + r.value, r.rest)
  }

  /** The state of the stack inside an array: the array's place, and the elements so far. */
  ghost predicate InArray(base: seq<Value>, stack: seq<Value>, count: nat, ts: seq<Tree>) {
    && |stack| == |base| + 1 + count && stack[..|base|] == base && stack[|base|] == Array([])
    && |ts| == count && forall i | 0 <= i < count :: Means(stack[|base| + 1 + i], ts[i])
  }

  /** ParseArray, its bracket passed. */
  method ParseArray(s: seq<byte>, doc: DocumentStack) returns (ok: bool, rest: seq<byte>)
    modifies doc
    ensures var r := ArrayAt(s);
      ok == r.Ok? && (ok ==> rest == r.rest && Pushed(old(doc.stack), doc.stack, r.value))
    decreases |s|, 3
  {
    hide TreeAt, Pushed, InArray, ElementsAt;
    ghost var base := doc.stack;
    doc.Push(Array([]));
    ArrayStarts(base);
    var a := SkipWhitespace(s);
    if Peek(a) == CLOSE_ARRAY {
      ArrayEnds(base, doc.stack, 0, []);
      doc.EndArray(0);
      return true, a[1..];
    }
    rest := a;
    ghost var ts: seq<Tree> := [];
    NothingParsed(a);
    var elementCount := 0;
    while true
      invariant InArray(base, doc.stack, elementCount, ts) && |rest| <= |s|
      invariant ElementsAt(a) == Prefixed(ts, ElementsAt(rest))
      decreases |rest|
    {
      ElementStep(ts, rest);
      ghost var before, at := doc.stack, rest;
      ok, rest := ParseValue(rest, doc);
      if !ok {
        return;
      }
      elementCount := elementCount + 1;
      ArrayGrows(base, before, doc.stack, elementCount - 1, ts, TreeAt(at).value);
      ts := ts + [TreeAt(at).value];
      rest := SkipWhitespace(rest);
      if Peek(rest) == COMMA {
        rest := SkipWhitespace(rest[1..]);
      } else if Peek(rest) == CLOSE_ARRAY {
        ArrayEnds(base, doc.stack, elementCount, ts);
        doc.EndArray(elementCount);
        return true, rest[1..];
      } else {
        return false, rest;
      }
    }
  }

  lemma ArrayStarts(base: seq<Value>)
    ensures InArray(base, base + [Array([])], 0, [])
  {
  }

  lemma ArrayGrows(base: seq<Value>, before: seq<Value>, after: seq<Value>, count: nat, ts: seq<Tree>, t: Tree)
    requires InArray(base, before, count, ts) && Pushed(before, after, t)
    ensures InArray(base, after, count + 1, ts + [t])
  {
    assert forall i | 0 <= i < |before| :: after[i] == after[..|before|][i] == before[i];
    assert after[..|base|] == before[..|base|];
  }

  lemma ArrayEnds(base: seq<Value>, stack: seq<Value>, count: nat, ts: seq<Tree>)
    requires InArray(base, stack, count, ts)
    ensures |stack| > count && stack[|stack| - count - 1].Array?
    ensures Pushed(base, stack[..|stack| - count - 1] + [Array(stack[|stack| - count..])], TArray(ts))
  {
    var elements := stack[|stack| - count..];
    forall i | 0 <= i < count
      ensures WellFormed(elements[i]) && Meaning(elements[i]) == ts[i]
    {
      assert Means(stack[|base| + 1 + i], ts[i]);
    }
    assert Meaning(Array(elements)).elements == ts;
  }

  lemma NothingParsed(a: seq<byte>)
    ensures ElementsAt(a) == Prefixed([], ElementsAt(a))
  {
    if ElementsAt(a).Ok? {
      assert [] + ElementsAt(a).value == ElementsAt(a).value;
    }
  }

  /** One round of the array's loop. */
  lemma ElementStep(ts: seq<Tree>, s: seq<byte>)
    ensures var v := TreeAt(s); var r := Prefixed(ts, ElementsAt(s));
      if v.Err? then r == Err
      else
        var a := Skip(v.rest);
        if Peek(a) == COMMA then r == Prefixed(ts + [v.value], ElementsAt(Skip(a[1..])))
        else if Peek(a) == CLOSE_ARRAY then r == Ok(ts + [v.value], a[1..])
        else r == Err
  {
    hide TreeAt;
    var v := TreeAt(s);
    if v.Ok? {
      var a := Skip(v.rest);
      if Peek(a) == COMMA {
        var more := ElementsAt(Skip(a[1..]));
        if more.Ok? {
          assert ts + [v.value] + more.value == ts + ([v.value] + more.value);
        }
      }
    }
  }

  // ---------------------------------------------------------------- objects

  function PrefixedMembers(ns: seq<seq<byte>>, ts: seq<Tree>, r: Result<(seq<seq<byte>>, seq<Tree>)>)
    : Result<(seq<seq<byte>>, seq<Tree>)>
  {
    if r.Err? then Err else Ok((ns + r.value.0, ts + r.value.1), r.rest)
  }

  /** The state of the stack inside an object: the object's place, and names and values in turn. */
  ghost predicate InObject(base: seq<Value>, stack: seq<Value>, count: nat, ns: seq<seq<byte>>, ts: seq<Tree>) {
    && |stack| == |base| + 1 + 2 * count && stack[..|base|] == base && stack[|base|] == Object([])
    && |ns| == |ts| == count
    && (forall i | 0 <= i < count :: stack[|base| + 1 + 2 * i] == String(ns[i]))
    && forall i | 0 <= i < count :: Means(stack[|base| + 2 + 2 * i], ts[i])
  }

  /** A name and a value on the stack. */
  ghost predicate PushedMember(before: seq<Value>, after: seq<Value>, n: seq<byte>, t: Tree) {
    Pushed(before + [String(n)], after, t)
  }

  method ParseMember(s: seq<byte>, doc: DocumentStack) returns (ok: bool, rest: seq<byte>)
    modifies doc
    ensures var r := MemberAt(s);
      ok == r.Ok? && (ok ==> rest == r.rest && PushedMember(old(doc.stack), doc.stack, r.value.0, r.value.1))
    decreases |s|, 1
  {
    hide Pushed, TreeAt, CharsAt;
    if Peek(s) != QUOTE {
      return false, s;
    }
    ok, rest := ParseText(s, doc);
    if !ok {
      return;
    }
    rest := SkipWhitespace(rest);
    if Peek(rest) != COLON {
      return false, rest;
    }
    rest := SkipWhitespace(rest[1..]);
    ok, rest := ParseValue(rest, doc);
  }

  /** ParseObject, its brace passed. */
  method ParseObject(s: seq<byte>, doc: DocumentStack) returns (ok: bool, rest: seq<byte>)
    modifies doc
    ensures var r := ObjectAt(s);
      ok == r.Ok? && (ok ==> rest == r.rest && Pushed(old(doc.stack), doc.stack, r.value))
    decreases |s|, 3
  {
    hide MemberAt, Pushed, PushedMember, InObject, MembersAt;
    ghost var base := doc.stack;
    doc.Push(Object([]));
    ObjectStarts(base);
    var a := SkipWhitespace(s);
    if Peek(a) == CLOSE_OBJECT {
      ObjectEnds(base, doc.stack, 0, [], []);
      doc.EndObject(0);
      return true, a[1..];
    }
    rest := a;
    ghost var ns: seq<seq<byte>>, ts: seq<Tree> := [], [];
    NoMembersParsed(a);
    var memberCount := 0;
    while true
      invariant InObject(base, doc.stack, memberCount, ns, ts) && |rest| <= |s|
      invariant MembersAt(a) == PrefixedMembers(ns, ts, MembersAt(rest))
      decreases |rest|
    {
      MemberStep(ns, ts, rest);
      ghost var before, at := doc.stack, rest;
      ok, rest := ParseMember(rest, doc);
      if !ok {
        return;
      }
      memberCount := memberCount + 1;
      ghost var m := MemberAt(at).value;
      ObjectGrows(base, before, doc.stack, memberCount - 1, ns, ts, m.0, m.1);
      ns, ts := ns + [m.0], ts + [m.1];
      rest := SkipWhitespace(rest);
      if Peek(rest) == COMMA {
        rest := SkipWhitespace(rest[1..]);
      } else if Peek(rest) == CLOSE_OBJECT {
        ObjectEnds(base, doc.stack, memberCount, ns, ts);
        doc.EndObject(memberCount);
        return true, rest[1..];
      } else {
        return false, rest;
      }
    }
  }

  lemma ObjectStarts(base: seq<Value>)
    ensures InObject(base, base + [Object([])], 0, [], [])
  {
  }

  lemma ObjectGrows(base: seq<Value>, before: seq<Value>, after: seq<Value>, count: nat, ns: seq<seq<byte>>,
                    ts: seq<Tree>, n: seq<byte>, t: Tree)
    requires InObject(base, before, count, ns, ts) && PushedMember(before, after, n, t)
    ensures InObject(base, after, count + 1, ns + [n], ts + [t])
  {
    var named := before + [String(n)];
    assert forall i | 0 <= i < |named| :: after[i] == after[..|named|][i] == named[i];
    assert after[..|base|] == before[..|base|];
  }

  lemma ObjectEnds(base: seq<Value>, stack: seq<Value>, count: nat, ns: seq<seq<byte>>, ts: seq<Tree>)
    requires InObject(base, stack, count, ns, ts)
    ensures |stack| > 2 * count && stack[|stack| - 2 * count - 1].Object?
    ensures Pushed(base, stack[..|stack| - 2 * count - 1] + [Object(Pairs(stack[|stack| - 2 * count..]))], TObject(ns, ts))
  {
    var vs := stack[|stack| - 2 * count..];
    var ms := Pairs(vs);
    forall i | 0 <= i < count
      ensures ms[i] == Member(String(ns[i]), stack[|base| + 2 + 2 * i]) && Means(ms[i].value, ts[i])
    {
      assert Means(stack[|base| + 2 + 2 * i], ts[i]);
      assert vs[2 * i] == stack[|base| + 1 + 2 * i] && vs[2 * i + 1] == stack[|base| + 2 + 2 * i];
    }
    assert Meaning(Object(ms)).names == ns && Meaning(Object(ms)).values == ts;
  }

  lemma NoMembersParsed(a: seq<byte>)
    ensures MembersAt(a) == PrefixedMembers([], [], MembersAt(a))
  {
    var r := MembersAt(a);
    if r.Ok? {
      assert [] + r.value.0 == r.value.0 && [] + r.value.1 == r.value.1;
    }
  }

  /** One round of the object's loop. */
  lemma MemberStep(ns: seq<seq<byte>>, ts: seq<Tree>, s: seq<byte>)
    ensures var m := MemberAt(s); var r := PrefixedMembers(ns, ts, MembersAt(s));
      if m.Err? then r == Err
      else
        var a := Skip(m.rest);
        if Peek(a) == COMMA then r == PrefixedMembers(ns + [m.value.0], ts + [m.value.1], MembersAt(Skip(a[1..])))
        else if Peek(a) == CLOSE_OBJECT then r == Ok((ns + [m.value.0], ts + [m.value.1]), a[1..])
        else r == Err
  {
    hide MemberAt;
    var m := MemberAt(s);
    if m.Ok? {
      var a := Skip(m.rest);
      if Peek(a) == COMMA {
        var more := MembersAt(Skip(a[1..]));
        if more.Ok? {
          assert ns + [m.value.0] + more.value.0 == ns + ([m.value.0] + more.value.0);
          assert ts + [m.value.1] + more.value.1 == ts + ([m.value.1] + more.value.1);
        }
      }
    }
  }

  // ---------------------------------------------------------------- whole texts

  /** Parse: a document is rebuilt from a text, or an error leaves nothing. */
  method ParseStream(s: seq<byte>) returns (ok: bool, root: Value)
    ensures var r := Document(s); ok == r.Ok? && (ok ==> WellFormed(root) && Meaning(root) == r.value)
  {
    hide TreeAt;
    var doc := new DocumentStack();
    root := Null;
    var a := SkipWhitespace(s);
    if Peek(a) != OPEN_OBJECT && Peek(a) != OPEN_ARRAY {
      return false, Null;
    }
    var rest;
    ok, rest := ParseValue(a, doc);
    if !ok {
      return;
    }
    rest := SkipWhitespace(rest);
    if Peek(rest) != 0 {
      return false, Null;
    }
    root := doc.stack[0];
  }

  /** A tree that is written and parsed again means the same: structure, order, strings byte by byte, numbers by value. */
  method WriteAndParse(v: Value) returns (w: Value)
    requires WellFormed(v) && WithoutFloats(v) && (v.Array? || v.Object?)
    ensures WellFormed(w) && Meaning(w) == Meaning(v)
  {
    hide TreeAt, Written, Document, Meaning, WellFormed;
    MeaningIsWritable(v);
    RootMeans(v);
    var writer := new Writer();
    writer.Accept(v);
    assert [] + [] + Written(Meaning(v)) == Written(Meaning(v));
    DocumentRoundTrip(Meaning(v));
    var ok;
    ok, w := ParseStream(writer.out);
  }

  lemma RootMeans(v: Value)
    requires WellFormed(v) && (v.Array? || v.Object?)
    ensures Meaning(v).TArray? || Meaning(v).TObject?
  {
  }
}
