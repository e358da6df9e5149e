/** White space in JSON texts (section 2 of RFC 4627), on the byte values themselves: 9, 10, 13 and 32 may stand around
    every token, and nothing else may. */
module JsonSpacing {
  import opened Bytes
  import opened JsonNumber
  import opened JsonString
  import opened JsonTree

  predicate Blank(g: seq<byte>) {
    forall i | 0 <= i < |g| :: g[i] == 9 || g[i] == 10 || g[i] == 13 || g[i] == 32
  }

  predicate Solid(s: seq<byte>) {
    s == [] || (s[0] != 9 && s[0] != 10 && s[0] != 13 && s[0] != 32)
  }

  /** Exactly the leading white space is skipped. */
  lemma {:induction false} SkipsBlanks(s: seq<byte>)
    ensures var r := Skip(s);
      |r| <= |s| && s[|s| - |r|..] == r && Blank(s[..|s| - |r|]) && Solid(r)
    decreases |s|
  {
    if s != [] && IsSpace(s[0]) {
      SkipsBlanks(s[1..]);
      var r := Skip(s[1..]);
      assert s[..|s| - |r|] == [s[0]] + s[1..][..|s[1..]| - |r|];
      assert s[|s| - |r|..] == s[1..][|s[1..]| - |r|..];
    }
  }

  lemma {:induction false} SkipGap(g: seq<byte>, s: seq<byte>)
    requires Blank(g) && Solid(s)
    ensures Skip(g + s) == s
    decreases |g|
  {
    if g == [] {
      assert g + s == s;
    } else {
      assert (g + s)[1..] == g[1..] + s;
      SkipGap(g[1..], s);
    }
  }

  // ---------------------------------------------------------------- trees with white space

  /** The tokens of a tree and the white space between them: behind an opening bracket, behind a value, behind a comma,
      and around a colon. */
  datatype Spaced =
    | Leaf(t: Tree)
    | SpacedArray(open: seq<byte>, items: seq<Item>)
    | SpacedObject(open: seq<byte>, members: seq<Member>)

  datatype Item = Item(value: Spaced, behind: seq<byte>, next: seq<byte>)

  datatype Member =
    Member(name: seq<byte>, toColon: seq<byte>, toValue: seq<byte>, value: Spaced, behind: seq<byte>, next: seq<byte>)

  predicate Fine(c: Spaced)
    decreases c
  {
    match c
    case Leaf(t) => Writable(t) && !t.TArray? && !t.TObject?
    case SpacedArray(open, items) =>
      Blank(open) && forall i | 0 <= i < |items| :: Fine(items[i].value) && Blank(items[i].behind) && Blank(items[i].next)
    case SpacedObject(open, members) =>
      Blank(open) && forall i | 0 <= i < |members| ::
        && Blank(members[i].toColon) && Blank(members[i].toValue) && Fine(members[i].value)
        && Blank(members[i].behind) && Blank(members[i].next)
  }

  /** The tree without the white space. */
  function Plain(c: Spaced): (t: Tree)
    requires Fine(c)
    decreases c
  {
    match c
    case Leaf(t) => t
    case SpacedArray(_, items) => TArray(seq(|items|, i requires 0 <= i < |items| => Plain(items[i].value)))
    case SpacedObject(_, members) =>
      TObject(seq(|members|, i requires 0 <= i < |members| => members[i].name),
              seq(|members|, i requires 0 <= i < |members| => Plain(members[i].value)))
  }

  /** The text with the white space. */
  function Text(c: Spaced): (s: seq<byte>)
    requires Fine(c)
    decreases c, 1, 0
  {
    match c
    case Leaf(t) => Written(t)
    case SpacedArray(open, _) => [91] + open + ItemsText(c, 0) + [93]
    case SpacedObject(open, _) => [123] + open + MembersText(c, 0) + [125]
  }

  function ItemsText(c: Spaced, i: nat): seq<byte>
    requires c.SpacedArray? && Fine(c) && i <= |c.items|
    decreases c, 0, |c.items| - i
  {
    if i == |c.items| then []
    else
      Text(c.items[i].value) + c.items[i].behind
      + if i + 1 == |c.items| then [] else [44] + c.items[i].next + ItemsText(c, i + 1)
  }

  function MembersText(c: Spaced, i: nat): seq<byte>
    requires c.SpacedObject? && Fine(c) && i <= |c.members|
    decreases c, 0, |c.members| - i
  {
    if i == |c.members| then []
    else
      var m := c.members[i];
      MemberText(m) + m.behind + if i + 1 == |c.members| then [] else [44] + m.next + MembersText(c, i + 1)
  }

  function MemberText(m: Member): seq<byte>
    requires Fine(m.value)
    decreases m.value, 1, 1
  {
    [34] + Escaped(m.name) + [34] + m.toColon + [58] + m.toValue + Text(m.value)
  }

  lemma {:induction false} PlainIsWritable(c: Spaced)
    requires Fine(c)
    ensures Writable(Plain(c))
    decreases c
  {
    match c
    case Leaf(_) =>
    case SpacedArray(_, items) =>
      forall i | 0 <= i < |items|
        ensures Writable(Plain(items[i].value))
      {
        PlainIsWritable(items[i].value);
      }
    case SpacedObject(_, members) =>
      forall i | 0 <= i < |members|
        ensures Writable(Plain(members[i].value))
      {
        PlainIsWritable(members[i].value);
      }
  }

  // ---------------------------------------------------------------- reading them

  /** Where the text of a value may begin. */
  predicate Starts(s: seq<byte>) {
    s != [] && Solid(s) && s[0] != 93 && s[0] != 125
  }

  lemma LeafStarts(t: Tree)
    requires Writable(t)
    ensures Starts(Written(t))
  {
    hide Written;
    WrittenBegins(t);
  }

  lemma TextStarts(c: Spaced)
    requires Fine(c)
    ensures Starts(Text(c))
  {
    hide Written, ItemsText, MembersText;
    if c.Leaf? {
      LeafStarts(c.t);
    }
  }

  lemma StartsLonger(s: seq<byte>, more: seq<byte>)
    requires Starts(s)
    ensures Starts(s + more)
  {
  }

  /** White space does not continue a number. */
  lemma GapEndsNumber(g: seq<byte>, s: seq<byte>)
    requires Blank(g) && EndsNumber(s)
    ensures EndsNumber(g + s)
  {
  }

  /** The tree is read back from the text, whatever the white space. */
  lemma {:induction false} ReadSpaced(c: Spaced, rest: seq<byte>)
    requires Fine(c) && EndsNumber(rest)
    ensures TreeAt(Text(c) + rest) == Ok(Plain(c), rest)
    decreases c, 1, 0
  {
    hide TreeAt, Written;
    match c
    case Leaf(t) => TreeRoundTrip(t, rest);
    case SpacedArray(_, items) =>
      if items != [] {
        ReadItems(c, 0, rest);
        assert Plain(c).elements[0..] == Plain(c).elements;
      }
      ReadArray(c, rest);
    case SpacedObject(_, members) =>
      if members != [] {
        ReadMembers(c, 0, rest);
        assert Plain(c).names[0..] == Plain(c).names && Plain(c).values[0..] == Plain(c).values;
      }
      ReadObject(c, rest);
  }

  lemma ReadArray(c: Spaced, rest: seq<byte>)
    requires c.SpacedArray? && Fine(c)
    requires c.items != [] ==>
      ElementsAt(ItemsText(c, 0) + [93] + rest) == Ok(Plain(c).elements, rest) && Starts(ItemsText(c, 0))
    ensures TreeAt(Text(c) + rest) == Ok(Plain(c), rest)
  {
    hide ItemsText, ElementsAt;
    var s := ItemsText(c, 0) + [93] + rest;
    if c.items == [] {
      NoItems(c);
      assert s == [93] + rest;
    } else {
      StartsLonger(ItemsText(c, 0), [93] + rest);
      assert s == ItemsText(c, 0) + ([93] + rest);
    }
    SkipGap(c.open, s);
    BracketsAround(91, c.open, ItemsText(c, 0), 93, rest);
    ArrayOpens(c.open + s, s, rest, Plain(c).elements);
  }

  lemma NoItems(c: Spaced)
    requires c.SpacedArray? && Fine(c) && c.items == []
    ensures ItemsText(c, 0) == [] && Plain(c).elements == []
  {
  }

  lemma BracketsAround(open: byte, g: seq<byte>, inner: seq<byte>, close: byte, rest: seq<byte>)
    ensures [open] + g + inner + [close] + rest == [open] + (g + (inner + [close] + rest))
  {
  }

  lemma ArrayOpens(s: seq<byte>, a: seq<byte>, rest: seq<byte>, ts: seq<Tree>)
    requires Skip(s) == a
    requires if ts == [] && a == [93] + rest then true
             else Starts(a) && ElementsAt(a) == Ok(ts, rest)
    ensures TreeAt([91] + s) == Ok(TArray(ts), rest)
  {
    hide ElementsAt, Skip;
    assert ([91] + s)[1..] == s;
    if ts == [] && a == [93] + rest {
      assert a[1..] == rest;
    }
  }

  lemma {:induction false} ReadItems(c: Spaced, i: nat, rest: seq<byte>)
    requires c.SpacedArray? && Fine(c) && i < |c.items|
    ensures ElementsAt(ItemsText(c, i) + [93] + rest) == Ok(Plain(c).elements[i..], rest)
    ensures Starts(ItemsText(c, i))
    decreases c, 0, |c.items| - i
  {
    hide ElementsAt, TreeAt, Text, Starts;
    var item := c.items[i];
    var v := item.value;
    TextStarts(v);
    if i + 1 == |c.items| {
      var tail := item.behind + ([93] + rest);
      GapEndsNumber(item.behind, [93] + rest);
      ReadSpaced(v, tail);
      LastItem(Text(v) + tail, Plain(v), item.behind, rest);
      ItemBehind(Text(v), item.behind, [], rest);
      StartsLonger(Text(v), item.behind);
      assert Plain(c).elements[i..] == [Plain(v)];
      assert Text(v) + item.behind + [] == Text(v) + item.behind;
    } else {
      ReadItems(c, i + 1, rest);
      var more := ItemsText(c, i + 1) + [93] + rest;
      var tail := item.behind + ([44] + (item.next + more));
      GapEndsNumber(item.behind, [44] + (item.next + more));
      ReadSpaced(v, tail);
      StartsLonger(ItemsText(c, i + 1), [93] + rest);
      assert ItemsText(c, i + 1) + ([93] + rest) == more;
      OneMoreItem(Text(v) + tail, Plain(v), item.behind, item.next, more);
      ItemNext(Text(v), item.behind, item.next, ItemsText(c, i + 1), rest);
      StartsLonger(Text(v), item.behind + ([44] + item.next + ItemsText(c, i + 1)));
      Regrouped(Text(v), item.behind, [44] + item.next + ItemsText(c, i + 1));
      assert Plain(c).elements[i..] == [Plain(v)] + Plain(c).elements[i + 1..];
    }
  }

  lemma ItemBehind(v: seq<byte>, behind: seq<byte>, more: seq<byte>, rest: seq<byte>)
    requires more == []
    ensures v + behind + more + [93] + rest == v + (behind + ([93] + rest))
    ensures v + behind + more + [125] + rest == v + (behind + ([125] + rest))
  {
  }

  lemma ItemNext(v: seq<byte>, behind: seq<byte>, next: seq<byte>, more: seq<byte>, rest: seq<byte>)
    ensures v + behind + ([44] + next + more) + [93] + rest == v + (behind + ([44] + (next + (more + [93] + rest))))
    ensures v + behind + ([44] + next + more) + [125] + rest == v + (behind + ([44] + (next + (more + [125] + rest))))
  {
  }

  lemma LastItem(s: seq<byte>, v: Tree, behind: seq<byte>, rest: seq<byte>)
    requires Blank(behind) && TreeAt(s) == Ok(v, behind + ([93] + rest))
    ensures ElementsAt(s) == Ok([v], rest)
  {
    hide TreeAt, Skip;
    SkipGap(behind, [93] + rest);
    assert ([93] + rest)[1..] == rest;
  }

  lemma OneMoreItem(s: seq<byte>, v: Tree, behind: seq<byte>, next: seq<byte>, more: seq<byte>)
    requires Blank(behind) && Blank(next) && Starts(more) && TreeAt(s) == Ok(v, behind + ([44] + (next + more)))
    ensures var r := ElementsAt(more); ElementsAt(s) == if r.Err? then Err else Ok([v] + r.value, r.rest)
  {
    hide TreeAt, Skip;
    SkipGap(behind, [44] + (next + more));
    SkipGap(next, more);
    assert ([44] + (next + more))[1..] == next + more;
  }

  lemma ReadObject(c: Spaced, rest: seq<byte>)
    requires c.SpacedObject? && Fine(c)
    requires c.members != [] ==>
      MembersAt(MembersText(c, 0) + [125] + rest) == Ok((Plain(c).names, Plain(c).values), rest)
      && Starts(MembersText(c, 0))
    ensures TreeAt(Text(c) + rest) == Ok(Plain(c), rest)
  {
    hide MembersText, MembersAt;
    var s := MembersText(c, 0) + [125] + rest;
    if c.members == [] {
      NoSpacedMembers(c);
      assert s == [125] + rest;
    } else {
      StartsLonger(MembersText(c, 0), [125] + rest);
      assert s == MembersText(c, 0) + ([125] + rest);
    }
    SkipGap(c.open, s);
    BracketsAround(123, c.open, MembersText(c, 0), 125, rest);
    ObjectOpens(c.open + s, s, rest, Plain(c).names, Plain(c).values);
  }

  lemma NoSpacedMembers(c: Spaced)
    requires c.SpacedObject? && Fine(c) && c.members == []
    ensures MembersText(c, 0) == [] && Plain(c).names == [] && Plain(c).values == []
  {
  }

  lemma ObjectOpens(s: seq<byte>, a: seq<byte>, rest: seq<byte>, ns: seq<seq<byte>>, ts: seq<Tree>)
    requires Skip(s) == a
    requires if ns == [] && ts == [] && a == [125] + rest then true
             else Starts(a) && MembersAt(a) == Ok((ns, ts), rest)
    ensures TreeAt([123] + s) == Ok(TObject(ns, ts), rest)
  {
    hide MembersAt, Skip;
    assert ([123] + s)[1..] == s;
    if ns == [] && ts == [] && a == [125] + rest {
      assert a[1..] == rest;
    }
  }

  lemma {:induction false} ReadMembers(c: Spaced, i: nat, rest: seq<byte>)
    requires c.SpacedObject? && Fine(c) && i < |c.members|
    ensures MembersAt(MembersText(c, i) + [125] + rest) == Ok((Plain(c).names[i..], Plain(c).values[i..]), rest)
    ensures Starts(MembersText(c, i))
    decreases c, 0, |c.members| - i
  {
    hide MembersAt, MemberAt, TreeAt, Text, Starts, MemberText;
    var m := c.members[i];
    MemberStarts(m);
    if i + 1 == |c.members| {
      var tail := m.behind + ([125] + rest);
      GapEndsNumber(m.behind, [125] + rest);
      ReadSpaced(m.value, tail);
      ReadMember(m, tail);
      LastMemberOf(MemberText(m) + tail, m.name, Plain(m.value), m.behind, rest);
      ItemBehind(MemberText(m), m.behind, [], rest);
      StartsLonger(MemberText(m), m.behind);
      assert Plain(c).values[i..] == [Plain(m.value)] && Plain(c).names[i..] == [m.name];
      assert MemberText(m) + m.behind + [] == MemberText(m) + m.behind;
    } else {
      ReadMembers(c, i + 1, rest);
      var more := MembersText(c, i + 1) + [125] + rest;
      var tail := m.behind + ([44] + (m.next + more));
      GapEndsNumber(m.behind, [44] + (m.next + more));
      ReadSpaced(m.value, tail);
      ReadMember(m, tail);
      StartsLonger(MembersText(c, i + 1), [125] + rest);
      assert MembersText(c, i + 1) + ([125] + rest) == more;
      OneMoreMemberOf(MemberText(m) + tail, m.name, Plain(m.value), m.behind, m.next, more);
      ItemNext(MemberText(m), m.behind, m.next, MembersText(c, i + 1), rest);
      StartsLonger(MemberText(m), m.behind + ([44] + m.next + MembersText(c, i + 1)));
      Regrouped(MemberText(m), m.behind, [44] + m.next + MembersText(c, i + 1));
      PlainMembersFrom(c, i);
    }
  }

  lemma Regrouped(a: seq<byte>, b: seq<byte>, c: seq<byte>)
    ensures a + b + c == a + (b + c)
  {
  }

  lemma PlainMembersFrom(c: Spaced, i: nat)
    requires c.SpacedObject? && Fine(c) && i + 1 < |c.members|
    ensures Plain(c).values[i..] == [Plain(c.members[i].value)] + Plain(c).values[i + 1..]
    ensures Plain(c).names[i..] == [c.members[i].name] + Plain(c).names[i + 1..]
  {
  }

  lemma MemberStarts(m: Member)
    requires Fine(m.value)
    ensures Starts(MemberText(m))
  {
    hide Text, Escaped;
  }

  lemma ReadMember(m: Member, tail: seq<byte>)
    requires Fine(m.value) && Blank(m.toColon) && Blank(m.toValue) && TreeAt(Text(m.value) + tail) == Ok(Plain(m.value), tail)
    ensures MemberAt(MemberText(m) + tail) == Ok((m.name, Plain(m.value)), tail)
  {
    hide TreeAt, Text, CharsAt, Escaped, Skip, MemberAt;
    var value := Text(m.value) + tail;
    var colon := m.toColon + ([58] + (m.toValue + value));
    StringRoundTrip(m.name, colon);
    TextStarts(m.value);
    StartsLonger(Text(m.value), tail);
    SkipGap(m.toColon, [58] + (m.toValue + value));
    SkipGap(m.toValue, value);
    MemberSpaced(Escaped(m.name) + [34] + colon, m.name, m.toColon, m.toValue, value, Plain(m.value), tail);
    MemberJoined(Escaped(m.name), m.toColon, m.toValue, Text(m.value), tail);
  }

  lemma MemberJoined(n: seq<byte>, toColon: seq<byte>, toValue: seq<byte>, v: seq<byte>, tail: seq<byte>)
    ensures [34] + n + [34] + toColon + [58] + toValue + v + tail
         == [34] + (n + [34] + (toColon + ([58] + (toValue + (v + tail)))))
  {
  }

  lemma MemberSpaced(s: seq<byte>, n: seq<byte>, toColon: seq<byte>, toValue: seq<byte>, value: seq<byte>, v: Tree,
                     tail: seq<byte>)
    requires CharsAt(s) == Ok(n, toColon + ([58] + (toValue + value)))
    requires Skip(toColon + ([58] + (toValue + value))) == [58] + (toValue + value) && Skip(toValue + value) == value
    requires TreeAt(value) == Ok(v, tail)
    ensures MemberAt([34] + s) == Ok((n, v), tail)
  {
    hide TreeAt, CharsAt, Skip;
    assert ([34] + s)[1..] == s && ([58] + (toValue + value))[1..] == toValue + value;
  }

  lemma LastMemberOf(s: seq<byte>, n: seq<byte>, v: Tree, behind: seq<byte>, rest: seq<byte>)
    requires Blank(behind) && MemberAt(s) == Ok((n, v), behind + ([125] + rest))
    ensures MembersAt(s) == Ok(([n], [v]), rest)
  {
    hide MemberAt, Skip;
    SkipGap(behind, [125] + rest);
    assert ([125] + rest)[1..] == rest;
  }

  lemma OneMoreMemberOf(s: seq<byte>, n: seq<byte>, v: Tree, behind: seq<byte>, next: seq<byte>, more: seq<byte>)
    requires Blank(behind) && Blank(next) && Starts(more) && MemberAt(s) == Ok((n, v), behind + ([44] + (next + more)))
    ensures var r := MembersAt(more);
      MembersAt(s) == if r.Err? then Err else Ok(([n] + r.value.0, [v] + r.value.1), r.rest)
  {
    hide MemberAt, Skip;
    SkipGap(behind, [44] + (next + more));
    SkipGap(next, more);
    assert ([44] + (next + more))[1..] == next + more;
  }

  // ---------------------------------------------------------------- whole texts

  /** White space before, between and behind the tokens of an array or an object leaves the tree the same. */
  lemma SpacedDocument(lead: seq<byte>, c: Spaced, trail: seq<byte>)
    requires Fine(c) && !c.Leaf? && Blank(lead) && Blank(trail)
    ensures Document(lead + Text(c) + trail) == Ok(Plain(c), trail)
    ensures Writable(Plain(c)) && Document(Written(Plain(c))) == Ok(Plain(c), [])
  {
    hide TreeAt, Skip, Written;
    PlainIsWritable(c);
    DocumentRoundTrip(Plain(c));
    TextStarts(c);
    StartsLonger(Text(c), trail);
    SkipGap(lead, Text(c) + trail);
    GapEndsNumber(trail, []);
    assert trail + [] == trail && lead + Text(c) + trail == lead + (Text(c) + trail);
    ReadSpaced(c, trail);
    SkipGap(trail, []);
  }

  /** Without white space the text is the written one. */
  predicate Bare(c: Spaced)
    decreases c
  {
    match c
    case Leaf(_) => true
    case SpacedArray(open, items) =>
      open == [] && forall i | 0 <= i < |items| :: Bare(items[i].value) && items[i].behind == [] && items[i].next == []
    case SpacedObject(open, members) =>
      open == [] && forall i | 0 <= i < |members| ::
        && members[i].toColon == [] && members[i].toValue == [] && Bare(members[i].value)
        && members[i].behind == [] && members[i].next == []
  }

  lemma {:induction false} BareIsWritten(c: Spaced)
    requires Fine(c) && Bare(c)
    ensures Writable(Plain(c)) && Text(c) == Written(Plain(c))
    decreases c, 1, 0
  {
    hide Written, Text;
    PlainIsWritable(c);
    match c
    case Leaf(_) => LeafText(c);
    case SpacedArray(_, _) =>
      BareItems(c, 0);
      ArrayBrackets(c);
    case SpacedObject(_, _) =>
      BareMembers(c, 0);
      ObjectBrackets(c);
  }

  lemma LeafText(c: Spaced)
    requires c.Leaf? && Fine(c)
    ensures Text(c) == Written(Plain(c))
  {
  }

  lemma ArrayBrackets(c: Spaced)
    requires c.SpacedArray? && Fine(c) && c.open == [] && Writable(Plain(c)) && ItemsText(c, 0) == Elements(Plain(c), 0)
    ensures Text(c) == Written(Plain(c))
  {
    hide ItemsText, Elements;
    assert [91] + [] == [91];
  }

  lemma ObjectBrackets(c: Spaced)
    requires c.SpacedObject? && Fine(c) && c.open == [] && Writable(Plain(c)) && MembersText(c, 0) == Members(Plain(c), 0)
    ensures Text(c) == Written(Plain(c))
  {
    hide MembersText, Members;
    assert [123] + [] == [123];
  }

  lemma {:induction false} BareItems(c: Spaced, i: nat)
    requires c.SpacedArray? && Fine(c) && Bare(c) && Writable(Plain(c)) && i <= |c.items|
    ensures ItemsText(c, i) == Elements(Plain(c), i)
    decreases c, 0, |c.items| - i
  {
    hide Written, Text;
    if i < |c.items| {
      BareIsWritten(c.items[i].value);
      BareItems(c, i + 1);
      NoGap(Text(c.items[i].value), ItemsText(c, i + 1));
    }
  }

  lemma NoGap(v: seq<byte>, more: seq<byte>)
    ensures v + [] == v && [44] + [] + more == [44] + more && v + [] + [] == v
  {
  }

  lemma {:induction false} BareMembers(c: Spaced, i: nat)
    requires c.SpacedObject? && Fine(c) && Bare(c) && Writable(Plain(c)) && i <= |c.members|
    ensures MembersText(c, i) == Members(Plain(c), i)
    decreases c, 0, |c.members| - i
  {
    hide Written, Text, Escaped;
    if i < |c.members| {
      var m := c.members[i];
      BareIsWritten(m.value);
      BareMembers(c, i + 1);
      NoGap(MemberText(m), MembersText(c, i + 1));
      NoColonGap([34] + Escaped(m.name) + [34], Text(m.value));
    }
  }

  lemma NoColonGap(n: seq<byte>, v: seq<byte>)
    ensures n + [] + [58] + [] + v == n + [58] + v
  {
  }

  /** The words and numbers of leaves, byte by byte. */
  lemma LeafBytes()
    ensures Written(TNull) == [110, 117, 108, 108]
    ensures Written(TBool(true)) == [116, 114, 117, 101] && Written(TBool(false)) == [102, 97, 108, 115, 101]
    ensures Written(TInt(-10)) == [45, 49, 48] && Written(TString([])) == [34, 34]
  {
    assert Digits(10) == Digits(1) + [48] && Digits(1) == [49];
    assert [45] + [49, 48] == [45, 49, 48];
  }

  /** An opening brace, a line feed, a closing brace. */
  lemma BraceLineFeedBrace()
    ensures Document([123, 10, 125]) == Ok(TObject([], []), [])
  {
    var c := SpacedObject([10], []);
    SpacedDocument([], c, []);
    assert [] + Text(c) + [] == [123, 10, 125] && Plain(c) == TObject([], []);
  }

  // ---------------------------------------------------------------- what is refused

  /** No value begins with a comma, a colon, a closing bracket, or nothing. */
  lemma NoValue(s: seq<byte>)
    requires s == [] || s[0] == 0 || s[0] == 44 || s[0] == 58 || s[0] == 93 || s[0] == 125
    ensures TreeAt(s) == Err
  {
    assert IntegerPart(s) == 0 && s[0..] == s;
  }

  /** Behind a comma another value has to come, and behind a value a comma or the closing bracket. */
  lemma BadItems(s: seq<byte>, v: Tree, behind: seq<byte>, next: seq<byte>, rest: seq<byte>)
    requires Blank(behind) && Blank(next) && Solid(rest)
    ensures TreeAt(s) == Ok(v, behind + ([44] + (next + ([93] + rest)))) ==> ElementsAt(s) == Err
    ensures TreeAt(s) == Ok(v, behind + rest) && (rest == [] || (rest[0] != 44 && rest[0] != 93)) ==> ElementsAt(s) == Err
  {
    hide TreeAt, Skip;
    SkipGap(behind, [44] + (next + ([93] + rest)));
    SkipGap(next, [93] + rest);
    SkipGap(behind, rest);
    assert ([44] + (next + ([93] + rest)))[1..] == next + ([93] + rest);
    NoValue([93] + rest);
    NoElementsWithoutValue([93] + rest);
  }

  lemma NoElementsWithoutValue(s: seq<byte>)
    requires TreeAt(s) == Err
    ensures ElementsAt(s) == Err
  {
    hide TreeAt;
  }

  /** The same for members, whose names have to be strings with a colon behind them. */
  lemma BadMembers(s: seq<byte>, n: seq<byte>, v: Tree, behind: seq<byte>, next: seq<byte>, rest: seq<byte>)
    requires Blank(behind) && Blank(next) && Solid(rest)
    ensures s == [] || s[0] != 34 ==> MembersAt(s) == Err
    ensures s != [] && CharsAt(s[1..]) == Ok(n, behind + rest) && (rest == [] || rest[0] != 58) ==> MembersAt(s) == Err
    ensures MemberAt(s) == Ok((n, v), behind + ([44] + (next + ([125] + rest)))) ==> MembersAt(s) == Err
    ensures MemberAt(s) == Ok((n, v), behind + rest) && (rest == [] || (rest[0] != 44 && rest[0] != 125)) ==>
              MembersAt(s) == Err
  {
    hide TreeAt, Skip, CharsAt;
    SkipGap(behind, [44] + (next + ([125] + rest)));
    SkipGap(next, [125] + rest);
    SkipGap(behind, rest);
    assert ([44] + (next + ([125] + rest)))[1..] == next + ([125] + rest);
    assert MembersAt([125] + rest) == Err;
  }

  /** Only an array or an object stands at the root, and nothing but white space behind it, up to a byte 0. */
  lemma BadDocuments(lead: seq<byte>, c: Spaced, trail: seq<byte>, rest: seq<byte>)
    requires Blank(lead) && Blank(trail) && Solid(rest)
    ensures rest == [] || (rest[0] != 91 && rest[0] != 123) ==> Document(lead + rest) == Err
    ensures Fine(c) && !c.Leaf? && rest != [] && rest[0] != 0 ==> Document(lead + (Text(c) + (trail + rest))) == Err
  {
    hide TreeAt, Skip, Written;
    SkipGap(lead, rest);
    if Fine(c) && !c.Leaf? {
      TextStarts(c);
      StartsLonger(Text(c), trail + rest);
      SkipGap(lead, Text(c) + (trail + rest));
      SkipGap(trail, rest);
      ReadContainer(c, trail + rest);
    }
  }

  /** Whatever stands behind a closing bracket. */
  lemma ReadContainer(c: Spaced, rest: seq<byte>)
    requires Fine(c) && !c.Leaf?
    ensures TreeAt(Text(c) + rest) == Ok(Plain(c), rest)
  {
    if c.SpacedArray? {
      if c.items != [] {
        ReadItems(c, 0, rest);
        assert Plain(c).elements[0..] == Plain(c).elements;
      }
      ReadArray(c, rest);
    } else {
      if c.members != [] {
        ReadMembers(c, 0, rest);
        assert Plain(c).names[0..] == Plain(c).names && Plain(c).values[0..] == Plain(c).values;
      }
      ReadObject(c, rest);
    }
  }
}
