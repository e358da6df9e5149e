/** The document tree: values as the program stores them, written by a visitor and rebuilt on a stack. */
module JsonDom {
  import opened Bytes
  import opened JsonNumber
  import opened JsonString
  import opened JsonTree

  /** A stored integer, with a flag for each integer type that has its value. */
  datatype Flags = Flags(int32: bool, uint32: bool, int64: bool, uint64: bool)

  predicate FlagsRight(v: int, f: Flags) {
    && (f.int32 ==> -0x8000_0000 <= v < 0x8000_0000) && (f.uint32 ==> 0 <= v < UINT32)
    && (f.int64 ==> -0x8000_0000_0000_0000 <= v < 0x8000_0000_0000_0000) && (f.uint64 ==> 0 <= v < UINT64)
    && (f.int32 || f.uint32 || f.int64 || f.uint64)
  }

  datatype Value =
    | Null
    | Bool(b: bool)
    | Integer(v: int, flags: Flags)
    | Floating(text: seq<byte>)
    | String(s: seq<byte>)
    | Array(elements: seq<Value>)
    | Object(members: seq<Member>)

  datatype Member = Member(name: Value, value: Value)

  function OfInt(i: int): Value {
    Integer(i, Flags(true, i >= 0, true, i >= 0))
  }

  function OfUint(u: nat): Value {
    Integer(u, Flags(u < 0x8000_0000, true, u < 0x8000_0000, true))
  }

  function OfInt64(i: int): Value {
    Integer(i, if i >= 0 then Flags(i < 0x8000_0000, i < UINT32, true, true)
               else Flags(i >= -0x8000_0000, false, true, false))
  }

  function OfUint64(u: nat): Value {
    Integer(u, Flags(u < 0x8000_0000, u < UINT32, u < 0x8000_0000_0000_0000, true))
  }

  /** Names are strings, and the flags of every number tell the truth. */
  predicate WellFormed(v: Value)
    decreases v
  {
    match v
    case Integer(i, f) => FlagsRight(i, f)
    case Array(es) => forall i | 0 <= i < |es| :: WellFormed(es[i])
    case Object(ms) => forall i | 0 <= i < |ms| :: ms[i].name.String? && WellFormed(ms[i].value)
    case _ => true
  }

  /** The JSON value that a stored value stands for. */
  function Meaning(v: Value): (t: Tree)
    requires WellFormed(v)
    decreases v
  {
    match v
    case Null => TNull
    case Bool(b) => TBool(b)
    case Integer(i, _) => TInt(i)
    case Floating(text) => TDouble(text)
    case String(s) => TString(s)
    case Array(es) => TArray(seq(|es|, i requires 0 <= i < |es| => Meaning(es[i])))
    case Object(ms) =>
      TObject(seq(|ms|, i requires 0 <= i < |ms| => ms[i].name.s), seq(|ms|, i requires 0 <= i < |ms| => Meaning(ms[i].value)))
  }

  predicate WithoutFloats(v: Value)
    decreases v
  {
    match v
    case Floating(_) => false
    case Array(es) => forall i | 0 <= i < |es| :: WithoutFloats(es[i])
    case Object(ms) => forall i | 0 <= i < |ms| :: WithoutFloats(ms[i].value)
    case _ => true
  }

  lemma {:induction false} MeaningIsWritable(v: Value)
    requires WellFormed(v) && WithoutFloats(v)
    ensures Writable(Meaning(v))
    decreases v
  {
    match v
    case Array(es) =>
      forall i | 0 <= i < |es|
        ensures Writable(Meaning(es[i]))
      {
        MeaningIsWritable(es[i]);
      }
    case Object(ms) =>
      forall i | 0 <= i < |ms|
        ensures Writable(Meaning(ms[i].value))
      {
        MeaningIsWritable(ms[i].value);
      }
    case _ =>
  }

  // ---------------------------------------------------------------- writing

  datatype Level = Level(inArray: bool, valueCount: nat)

  /** What separates the next value from the one before it. */
  function Separator(levels: seq<Level>): seq<byte> {
    if levels == [] then []
    else
      var top := levels[|levels| - 1];
      if top.valueCount == 0 then []
      else if top.inArray || top.valueCount % 2 == 0 then [COMMA]
      else [COLON]
  }

  function Counted(levels: seq<Level>): seq<Level> {
    if levels == [] then []
    else
      var top := levels[|levels| - 1];
      levels[..|levels| - 1] + [top.(valueCount := top.valueCount + 1)]
  }

  /** Only an array or an object is written at the root, only a string as a name. */
  predicate Allowed(levels: seq<Level>, container: bool, text: bool) {
    if levels == [] then container
    else
      var top := levels[|levels| - 1];
      !top.inArray && top.valueCount % 2 == 0 ==> text
  }

  class Writer {
    var out: seq<byte>
    var levels: seq<Level>

    constructor ()
      ensures out == [] && levels == []
    {
      out, levels := [], [];
    }

    method Prefix(ghost container: bool, ghost text: bool)
      requires Allowed(levels, container, text)
      modifies this
      ensures out == old(out) + Separator(old(levels)) && levels == Counted(old(levels))
    {
      if levels != [] {
        var level := levels[|levels| - 1];
        if level.valueCount > 0 {
          if level.inArray {
            out := out + [COMMA];
          } else {
            out := out + [if level.valueCount % 2 == 0 then COMMA else COLON];
          }
        }
        levels := levels[..|levels| - 1] + [level.(valueCount := level.valueCount + 1)];
      }
    }

    method WriteText(str: seq<byte>)
      requires Allowed(levels, false, true)
      modifies this
      ensures out == old(out) + Separator(old(levels)) + Quoted(str) && levels == Counted(old(levels))
    {
      Prefix(false, true);
      var s := WriteString(str);
      out := out + s;
    }

    /** The type that a number is written as is the first one whose flag is set; the text is the same for all of them. */
    method WriteInteger(v: int, f: Flags)
      requires Allowed(levels, false, false) && FlagsRight(v, f)
      modifies this
      ensures out == old(out) + Separator(old(levels)) + Printed(v) && levels == Counted(old(levels))
    {
      Prefix(false, false);
      Buffers();
      var s;
      if f.int32 {
        s := WriteSigned(v, UINT32, 10);
      } else if f.uint32 {
        s := WriteUnsigned(v, 10);
      } else if f.int64 {
        s := WriteSigned(v, UINT64, 20);
      } else {
        s := WriteUnsigned(v, 20);
      }
      out := out + s;
    }

    method WriteWord(word: seq<byte>)
      requires Allowed(levels, false, false)
      modifies this
      ensures out == old(out) + Separator(old(levels)) + word && levels == Counted(old(levels))
    {
      Prefix(false, false);
      out := out + word;
    }

    /** StartObject and StartArray. */
    method Start(inArray: bool)
      requires Allowed(levels, true, false)
      modifies this
      ensures out == old(out) + Separator(old(levels)) + [if inArray then OPEN_ARRAY else OPEN_OBJECT]
      ensures levels == Counted(old(levels)) + [Level(inArray, 0)]
    {
      Prefix(true, false);
      levels := levels + [Level(inArray, 0)];
      out := out + [if inArray then OPEN_ARRAY else OPEN_OBJECT];
    }

    /** EndObject and EndArray. */
    method End(inArray: bool)
      requires levels != [] && levels[|levels| - 1].inArray == inArray
      modifies this
      ensures out == old(out) + [if inArray then CLOSE_ARRAY else CLOSE_OBJECT] && levels == old(levels)[..|old(levels)| - 1]
    {
      levels := levels[..|levels| - 1];
      out := out + [if inArray then CLOSE_ARRAY else CLOSE_OBJECT];
    }

    /** Accept: the visitor writes exactly the text of what the value means, whatever the flags of its numbers. */
    method Accept(v: Value)
      requires WellFormed(v) && WithoutFloats(v) && Writable(Meaning(v))
      requires Allowed(levels, v.Array? || v.Object?, v.String?)
      modifies this
      ensures out == old(out) + Separator(old(levels)) + Written(Meaning(v)) && levels == Counted(old(levels))
      decreases v, 1
    {
      hide Quoted, Printed, Elements, Members, Separator, Counted;
      match v {
        case Null => WriteWord(NULL);
        case Bool(b) => WriteWord(if b then TRUE else FALSE);
        case Integer(i, f) => WriteInteger(i, f);
        case String(s) => WriteText(s);
        case Array(es) => AcceptArray(v);
        case Object(ms) => AcceptObject(v);
      }
    }

    method AcceptArray(v: Value)
      requires v.Array? && WellFormed(v) && WithoutFloats(v) && Writable(Meaning(v)) && Allowed(levels, true, false)
      modifies this
      ensures out == old(out) + Separator(old(levels)) + Written(Meaning(v)) && levels == Counted(old(levels))
      decreases v, 0
    {
      hide Elements, Written, Counted, Separator, ElementsLeft;
      ghost var t, outer := Meaning(v), Counted(levels);
      Start(true);
      ghost var full := out + ElementsLeft(t, 0);
      var i := 0;
      while i < |v.elements|
        invariant 0 <= i <= |v.elements| && levels == outer + [Level(true, i)]
        invariant out + ElementsLeft(t, i) == full
      {
        ghost var before := out;
        ElementRound(t, i, outer);
        Accept(v.elements[i]);
        Regroup(before, Separator(outer + [Level(true, i)]), Written(t.elements[i]), ElementsLeft(t, i + 1));
        i := i + 1;
      }
      ArrayDone(t);
      assert out + [] == out;
      End(true);
      assert levels == outer;
      Regroup(old(out) + Separator(old(levels)), [OPEN_ARRAY], ElementsLeft(t, 0), [CLOSE_ARRAY]);
    }

    method AcceptObject(v: Value)
      requires v.Object? && WellFormed(v) && WithoutFloats(v) && Writable(Meaning(v)) && Allowed(levels, true, false)
      modifies this
      ensures out == old(out) + Separator(old(levels)) + Written(Meaning(v)) && levels == Counted(old(levels))
      decreases v, 0
    {
      hide Members, Written, Counted, Separator, MembersLeft;
      ghost var t, outer := Meaning(v), Counted(levels);
      Start(false);
      ghost var full := out + MembersLeft(t, 0);
      var i := 0;
      while i < |v.members|
        invariant 0 <= i <= |v.members| && levels == outer + [Level(false, 2 * i)]
        invariant out + MembersLeft(t, i) == full
      {
        ghost var before := out;
        MemberRound(t, i, outer);
        WriteText(v.members[i].name.s);
        Accept(v.members[i].value);
        Regroup2(before, Separator(outer + [Level(false, 2 * i)]), Quoted(t.names[i]),
                 Separator(outer + [Level(false, 2 * i + 1)]), Written(t.values[i]), MembersLeft(t, i + 1));
        i := i + 1;
      }
      ObjectDone(t);
      assert out + [] == out;
      End(false);
      assert levels == outer;
      Regroup(old(out) + Separator(old(levels)), [OPEN_OBJECT], MembersLeft(t, 0), [CLOSE_OBJECT]);
    }
  }

  lemma Regroup(a: seq<byte>, b: seq<byte>, c: seq<byte>, d: seq<byte>)
    ensures a + b + c + d == a + (b + c + d)
  {
  }

  lemma Regroup2(a: seq<byte>, b: seq<byte>, c: seq<byte>, d: seq<byte>, e: seq<byte>, f: seq<byte>)
    ensures a + b + c + d + e + f == a + (b + c + (d + e) + f)
  {
  }

  lemma ArrayDone(t: Tree)
    requires t.TArray? && Writable(t)
    ensures ElementsLeft(t, |t.elements|) == [] && Written(t) == [OPEN_ARRAY] + ElementsLeft(t, 0) + [CLOSE_ARRAY]
  {
    hide Written;
    assert [] + Elements(t, 0) == Elements(t, 0);
    WrittenArray(t);
  }

  lemma WrittenArray(t: Tree)
    requires t.TArray? && Writable(t)
    ensures Written(t) == [OPEN_ARRAY] + Elements(t, 0) + [CLOSE_ARRAY]
  {
    hide Elements;
  }

  lemma ObjectDone(t: Tree)
    requires t.TObject? && Writable(t)
    ensures MembersLeft(t, |t.values|) == [] && Written(t) == [OPEN_OBJECT] + MembersLeft(t, 0) + [CLOSE_OBJECT]
  {
    hide Written;
    assert [] + Members(t, 0) == Members(t, 0);
    WrittenObject(t);
  }

  lemma WrittenObject(t: Tree)
    requires t.TObject? && Writable(t)
    ensures Written(t) == [OPEN_OBJECT] + Members(t, 0) + [CLOSE_OBJECT]
  {
    hide Members;
  }

  function ElementsLeft(t: Tree, i: nat): seq<byte>
    requires t.TArray? && Writable(t) && i <= |t.elements|
  {
    (if 0 < i < |t.elements| then [COMMA] else []) + Elements(t, i)
  }

  function MembersLeft(t: Tree, i: nat): seq<byte>
    requires t.TObject? && Writable(t) && i <= |t.values|
  {
    (if 0 < i < |t.values| then [COMMA] else []) + Members(t, i)
  }

  lemma ElementRound(t: Tree, i: nat, outer: seq<Level>)
    requires t.TArray? && Writable(t) && i < |t.elements|
    ensures ElementsLeft(t, i) == Separator(outer + [Level(true, i)]) + Written(t.elements[i]) + ElementsLeft(t, i + 1)
    ensures Counted(outer + [Level(true, i)]) == outer + [Level(true, i + 1)]
    ensures i + 1 == |t.elements| ==> ElementsLeft(t, i + 1) == []
  {
    hide Written;
  }

  lemma MemberRound(t: Tree, i: nat, outer: seq<Level>)
    requires t.TObject? && Writable(t) && i < |t.values|
    ensures MembersLeft(t, i)
         == Separator(outer + [Level(false, 2 * i)]) + Quoted(t.names[i])
            + (Separator(outer + [Level(false, 2 * i + 1)]) + Written(t.values[i])) + MembersLeft(t, i + 1)
    ensures Counted(outer + [Level(false, 2 * i)]) == outer + [Level(false, 2 * i + 1)]
    ensures Counted(outer + [Level(false, 2 * i + 1)]) == outer + [Level(false, 2 * i + 2)]
    ensures i + 1 == |t.values| ==> MembersLeft(t, i + 1) == []
  {
    hide Written, Quoted, Separator, Counted, Members;
    InObject(outer, i);
    MembersStep(t, i);
    var comma := if i > 0 then [COMMA] else [];
    MemberParts(comma, Quoted(t.names[i]), Written(t.values[i]), MembersLeft(t, i + 1));
  }

  lemma MemberParts(comma: seq<byte>, name: seq<byte>, value: seq<byte>, more: seq<byte>)
    ensures comma + (name + [COLON] + value + more) == comma + name + ([COLON] + value) + more
  {
  }

  lemma MembersStep(t: Tree, i: nat)
    requires t.TObject? && Writable(t) && i < |t.values|
    ensures Members(t, i) == Quoted(t.names[i]) + [COLON] + Written(t.values[i]) + MembersLeft(t, i + 1)
    ensures i + 1 == |t.values| ==> MembersLeft(t, i + 1) == []
  {
    hide Written, Quoted;
  }

  lemma InObject(outer: seq<Level>, i: nat)
    ensures Separator(outer + [Level(false, 2 * i)]) == if i > 0 then [COMMA] else []
    ensures Separator(outer + [Level(false, 2 * i + 1)]) == [COLON]
    ensures Counted(outer + [Level(false, 2 * i)]) == outer + [Level(false, 2 * i + 1)]
    ensures Counted(outer + [Level(false, 2 * i + 1)]) == outer + [Level(false, 2 * i + 2)]
  {
  }
}
