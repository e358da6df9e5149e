/** Base64 with a 32-bit accumulator whose used bits are never cleared. */
module Base64 {
  type octet = x: bv32 | x < 256
  type sextet = x: bv32 | x < 64

  const PAD: octet := 61

  /** The base 64 alphabet (table 1 of RFC 4648). */
  function Letter(v: sextet): octet {
    if v < 26 then 65 + v else if v < 52 then 71 + v else if v < 62 then v - 4 else if v == 62 then 43 else 47
  }

  /** The value of a letter; 64 for any other byte. */
  function Reverse(c: octet): (v: bv32)
    ensures v <= 64
  {
    if 65 <= c && c <= 90 then c - 65 else if 97 <= c && c <= 122 then c - 71 else if 48 <= c && c <= 57 then c + 4
    else if c == 43 then 62 else if c == 47 then 63 else 64
  }

  lemma ReverseOfLetter(v: sextet)
    ensures Reverse(Letter(v)) == v && Letter(v) != PAD && !IsSpace(Letter(v))
  {
  }

  function Letters(vs: seq<sextet>): (cs: seq<octet>)
    ensures |cs| == |vs|
  {
    seq(|vs|, i requires 0 <= i < |vs| => Letter(vs[i]))
  }

  // ---------------------------------------------------------------- six bits at a time

  /** The groups that one more byte completes: `pending` holds the bits left over from the `n` bytes before it, counted
      modulo 3. */
  function Emitted(n: nat, pending: bv32, c: octet): (vs: seq<sextet>)
    requires n < 3 && pending < 16 && (n == 1 ==> pending < 4)
    ensures |vs| == if n == 2 then 2 else 1
  {
    if n == 0 then [c >> 2]
    else if n == 1 then [(pending << 4) | (c >> 4)]
    else [(pending << 2) | (c >> 6), c & 63]
  }

  /** The bits that are left for the next group. */
  function Pending(s: seq<octet>): (v: bv32)
    ensures v < 16 && (|s| % 3 == 1 ==> v < 4)
  {
    if |s| % 3 == 0 then 0 else if |s| % 3 == 1 then s[|s| - 1] & 3 else s[|s| - 1] & 15
  }

  /** The complete groups of six bits. */
  function Groups(s: seq<octet>): (vs: seq<sextet>)
    decreases |s|
  {
    if s == [] then []
    else
      var before := s[..|s| - 1];
      Groups(before) + Emitted(|before| % 3, Pending(before), s[|s| - 1])
  }

  lemma {:induction false} GroupsLength(s: seq<octet>)
    ensures |Groups(s)| == |s| / 3 * 4 + |s| % 3
    decreases |s|
  {
    if s != [] {
      GroupsLength(s[..|s| - 1]);
    }
  }

  lemma GroupsSnoc(s: seq<octet>, c: octet)
    ensures Groups(s + [c]) == Groups(s) + Emitted(|s| % 3, Pending(s), c)
  {
    assert (s + [c])[..|s|] == s;
  }

  lemma PendingAfter(s: seq<octet>, c: octet)
    ensures |s + [c]| % 3 == (if |s| % 3 == 2 then 0 else |s| % 3 + 1)
    ensures Pending(s + [c]) == if |s| % 3 == 0 then c & 3 else if |s| % 3 == 1 then c & 15 else 0
  {
  }

  lemma PendingIs(s: seq<octet>)
    ensures |s| % 3 == 0 ==> Pending(s) == 0
    ensures |s| % 3 == 1 ==> Pending(s) == s[|s| - 1] & 3
    ensures |s| % 3 == 2 ==> Pending(s) == s[|s| - 1] & 15
  {
  }

  /** The last group, filled with zero bits. */
  function Filled(s: seq<octet>): seq<sextet> {
    if |s| % 3 == 0 then [] else if |s| % 3 == 1 then [Pending(s) << 4] else [Pending(s) << 2]
  }

  function Sextets(s: seq<octet>): seq<sextet> {
    Groups(s) + Filled(s)
  }

  /** The four digits, to the base 64, of a 24-bit number. */
  function Digits64(v: bv32): (ds: seq<sextet>)
    requires v < 0x100_0000
    ensures |ds| == 4
  {
    [v >> 18, (v >> 12) & 63, (v >> 6) & 63, v & 63]
  }

  /** Three bytes are the four digits of a 24-bit number (section 4 of RFC 4648). */
  lemma ThreeBytes(s: seq<octet>, a: octet, b: octet, c: octet)
    requires |s| % 3 == 0
    ensures Groups(s + [a, b, c]) == Groups(s) + Digits64((a << 16) | (b << 8) | c)
  {
    hide Groups, Emitted, Digits64, Pending;
    var s1, s2 := s + [a], s + [a] + [b];
    PendingIs(s);
    GroupsSnoc(s, a);
    PendingAfter(s, a);
    GroupsSnoc(s1, b);
    PendingAfter(s1, b);
    GroupsSnoc(s2, c);
    OneByOne(s, a, b, c);
    FourDigits(a, b, c);
    FourOf(Groups(s), Digits64((a << 16) | (b << 8) | c));
  }

  lemma OneByOne(s: seq<octet>, a: octet, b: octet, c: octet)
    ensures s + [a] + [b] + [c] == s + [a, b, c]
  {
  }

  lemma FourOf(vs: seq<sextet>, d: seq<sextet>)
    requires |d| == 4
    ensures vs + [d[0]] + [d[1]] + [d[2], d[3]] == vs + d
  {
  }

  lemma FourDigits(a: octet, b: octet, c: octet)
    ensures (a << 16) | (b << 8) | c < 0x100_0000
    ensures var d := Digits64((a << 16) | (b << 8) | c);
      && Emitted(0, 0, a) == [d[0]] && Emitted(1, a & 3, b) == [d[1]] && Emitted(2, b & 15, c) == [d[2], d[3]]
  {
  }

  // ---------------------------------------------------------------- eight bits at a time

  /** The byte that one more group of six bits completes, if it does; `p` is the last of the `n` groups before it,
      counted modulo 4. */
  function Completed(n: nat, p: sextet, v: sextet): seq<octet>
    requires n < 4
  {
    if n == 0 then [] else if n == 1 then [(p << 2) | (v >> 4)]
    else if n == 2 then [((p & 15) << 4) | (v >> 2)] else [((p & 3) << 6) | v]
  }

  function LastOf(vs: seq<sextet>): sextet {
    if vs == [] then 0 else vs[|vs| - 1]
  }

  /** The bytes that groups of six bits make up. */
  function Octets(vs: seq<sextet>): seq<octet>
    decreases |vs|
  {
    if vs == [] then []
    else
      var before := vs[..|vs| - 1];
      Octets(before) + Completed(|before| % 4, LastOf(before), vs[|vs| - 1])
  }

  lemma OctetsSnoc(vs: seq<sextet>, v: sextet)
    ensures Octets(vs + [v]) == Octets(vs) + Completed(|vs| % 4, LastOf(vs), v)
  {
    assert (vs + [v])[..|vs|] == vs;
  }

  /** All but the last byte. */
  function Front(s: seq<octet>): seq<octet> {
    if s == [] then [] else s[..|s| - 1]
  }

  /** The last group `x` holds the first bits of the byte `p`, the last one of `n` bytes counted modulo 3. */
  predicate Carries(n: nat, x: sextet, p: octet) {
    if n == 1 then x == p >> 2 else x & 15 == p >> 4
  }

  /** The bits of that byte which no complete group holds. */
  function LeftOver(n: nat, p: octet): (v: bv32)
    ensures v < 16 && (n == 1 ==> v < 4)
  {
    if n == 0 then 0 else if n == 1 then p & 3 else p & 15
  }

  /** What the groups `vs` of the byte string `s` give back before the last group is filled: all but an unfinished
      byte, whose first bits are in the last group. */
  predicate GivesBack(vs: seq<sextet>, s: seq<octet>) {
    && |vs| % 4 == |s| % 3
    && Octets(vs) == (if |s| % 3 == 0 then s else Front(s))
    && (|s| % 3 != 0 ==> Carries(|s| % 3, LastOf(vs), LastByte(s)))
  }

  function LastByte(s: seq<octet>): octet {
    if s == [] then 0 else s[|s| - 1]
  }

  lemma {:induction false} GroupsGiveBack(s: seq<octet>)
    ensures GivesBack(Groups(s), s)
    decreases |s|
  {
    hide Groups, GivesBack, Emitted, Pending;
    if s == [] {
      NoGroups();
    } else {
      var c, before := s[|s| - 1], s[..|s| - 1];
      GroupsGiveBack(before);
      assert s == before + [c];
      GroupsSnoc(before, c);
      EmittedGivesBack(Groups(before), before, c);
    }
  }

  lemma NoGroups()
    ensures Groups([]) == [] && GivesBack([], [])
  {
  }

  lemma PendingIsLeftOver(s: seq<octet>)
    ensures Pending(s) == LeftOver(|s| % 3, LastByte(s))
  {
  }

  lemma EmittedGivesBack(vs: seq<sextet>, s: seq<octet>, c: octet)
    requires GivesBack(vs, s)
    ensures GivesBack(vs + Emitted(|s| % 3, Pending(s), c), s + [c])
  {
    hide GivesBack, Emitted, Pending, LeftOver;
    PendingIsLeftOver(s);
    if |s| % 3 == 0 {
      EmittedFirst(vs, s, c);
    } else if |s| % 3 == 1 {
      EmittedSecond(vs, s, c);
    } else {
      EmittedThird(vs, s, c);
    }
  }

  lemma EmittedFirst(vs: seq<sextet>, s: seq<octet>, c: octet)
    requires GivesBack(vs, s) && |s| % 3 == 0
    ensures GivesBack(vs + Emitted(0, LeftOver(0, LastByte(s)), c), s + [c])
  {
    hide GivesBack, Octets, Emitted, LeftOver, Carries, LastByte, LastOf;
    BitsFirst(LastByte(s), c);
    var e := Emitted(0, LeftOver(0, LastByte(s)), c);
    Unfinished0(vs, s);
    OneGroup(vs, e[0], []);
    Finished1(vs + [e[0]], s, c);
    assert e == [e[0]] && Octets(vs) + [] == Octets(vs);
  }

  lemma EmittedSecond(vs: seq<sextet>, s: seq<octet>, c: octet)
    requires GivesBack(vs, s) && |s| % 3 == 1
    ensures GivesBack(vs + Emitted(1, LeftOver(1, LastByte(s)), c), s + [c])
  {
    hide GivesBack, Octets, Emitted, LeftOver, Carries, LastByte, LastOf, Completed, Front;
    var p := LastByte(s);
    Unfinished(vs, s);
    BitsSecond(LastOf(vs), p, c);
    var e := Emitted(1, LeftOver(1, p), c);
    OneGroup(vs, e[0], [p]);
    Finished2(vs + [e[0]], s, c);
    assert e == [e[0]];
  }

  lemma EmittedThird(vs: seq<sextet>, s: seq<octet>, c: octet)
    requires GivesBack(vs, s) && |s| % 3 == 2
    ensures GivesBack(vs + Emitted(2, LeftOver(2, LastByte(s)), c), s + [c])
  {
    hide GivesBack, Octets, Emitted, LeftOver, Carries, LastByte, LastOf, Completed, Front;
    var p := LastByte(s);
    Unfinished(vs, s);
    BitsThird(LastOf(vs), p, c);
    var e := Emitted(2, LeftOver(2, p), c);
    TwoGroups(vs, e, p, c);
    Finished0(vs + e, s, c);
  }

  /** One more group, and the byte that it completes, if it does. */
  lemma OneGroup(vs: seq<sextet>, v: sextet, out: seq<octet>)
    requires Completed(|vs| % 4, LastOf(vs), v) == out
    ensures Octets(vs + [v]) == Octets(vs) + out && LastOf(vs + [v]) == v
  {
    hide Octets, Completed;
    OctetsSnoc(vs, v);
  }

  /** Two more groups complete two bytes. */
  lemma TwoGroups(vs: seq<sextet>, e: seq<sextet>, p: octet, c: octet)
    requires |vs| % 4 == 2 && |e| == 2 && Completed(2, LastOf(vs), e[0]) == [p] && Completed(3, e[0], e[1]) == [c]
    ensures |vs + e| % 4 == 0 && Octets(vs + e) == Octets(vs) + [p] + [c]
  {
    hide Octets, Completed, LastOf;
    OneGroup(vs, e[0], [p]);
    OneGroup(vs + [e[0]], e[1], [c]);
    OneByOneGroup(vs, e);
  }

  lemma OneByOneGroup(vs: seq<sextet>, e: seq<sextet>)
    requires |e| == 2
    ensures vs + [e[0]] + [e[1]] == vs + e
  {
  }

  lemma Unfinished0(vs: seq<sextet>, s: seq<octet>)
    requires GivesBack(vs, s) && |s| % 3 == 0
    ensures |vs| % 4 == 0 && Octets(vs) == s
  {
    hide Octets, Carries;
  }

  lemma Unfinished(vs: seq<sextet>, s: seq<octet>)
    requires GivesBack(vs, s) && |s| % 3 != 0
    ensures |vs| % 4 == |s| % 3 && Octets(vs) + [LastByte(s)] == s && Carries(|s| % 3, LastOf(vs), LastByte(s))
  {
    hide Octets, Carries, Front, LastByte, LastOf;
    FrontAndLast(s);
  }

  lemma FrontAndLast(s: seq<octet>)
    requires s != []
    ensures Front(s) + [LastByte(s)] == s
  {
  }

  lemma Finished1(vs: seq<sextet>, s: seq<octet>, c: octet)
    requires |vs| % 4 == 1 && |s| % 3 == 0 && Octets(vs) == s && Carries(1, LastOf(vs), c)
    ensures GivesBack(vs, s + [c])
  {
    hide Octets, Carries, LastOf;
    assert Front(s + [c]) == s;
  }

  lemma Finished2(vs: seq<sextet>, s: seq<octet>, c: octet)
    requires |vs| % 4 == 2 && |s| % 3 == 1 && Octets(vs) == s && Carries(2, LastOf(vs), c)
    ensures GivesBack(vs, s + [c])
  {
    hide Octets, Carries, LastOf;
    assert Front(s + [c]) == s;
  }

  lemma Finished0(vs: seq<sextet>, s: seq<octet>, c: octet)
    requires |vs| % 4 == 0 && |s| % 3 == 2 && Octets(vs) == s + [c]
    ensures GivesBack(vs, s + [c])
  {
    hide Octets, Carries;
  }

  lemma BitsFirst(p: octet, c: octet)
    ensures var e := Emitted(0, LeftOver(0, p), c); Carries(1, e[0], c)
  {
  }

  lemma BitsSecond(x: sextet, p: octet, c: octet)
    requires Carries(1, x, p)
    ensures var e := Emitted(1, LeftOver(1, p), c); Completed(1, x, e[0]) == [p] && Carries(2, e[0], c)
  {
  }

  lemma BitsThird(x: sextet, p: octet, c: octet)
    requires Carries(2, x, p)
    ensures var e := Emitted(2, LeftOver(2, p), c); Completed(2, x, e[0]) == [p] && Completed(3, e[0], e[1]) == [c]
  {
  }

  /** Decoding the groups of a byte string gives it back. */
  lemma SextetsGiveBack(s: seq<octet>)
    ensures Octets(Sextets(s)) == s
  {
    hide Groups, Octets, Completed, GivesBack, Filled, Carries, LastOf;
    GroupsGiveBack(s);
    var vs := Groups(s);
    if |s| % 3 == 0 {
      Unfinished0(vs, s);
      NothingFilled(s);
      assert vs + [] == vs;
    } else {
      Unfinished(vs, s);
      FilledBits(LastOf(vs), s);
      OneGroup(vs, Filled(s)[0], [LastByte(s)]);
      assert Filled(s) == [Filled(s)[0]];
    }
  }

  lemma NothingFilled(s: seq<octet>)
    requires |s| % 3 == 0
    ensures Filled(s) == []
  {
  }

  lemma FilledBits(x: sextet, s: seq<octet>)
    requires |s| % 3 != 0 && Carries(|s| % 3, x, LastByte(s))
    ensures |Filled(s)| == 1 && Completed(|s| % 3, x, Filled(s)[0]) == [LastByte(s)]
  {
    hide Pending, LeftOver, Completed, Carries;
    PendingIsLeftOver(s);
    if |s| % 3 == 1 {
      FilledOne(x, LastByte(s));
    } else {
      FilledTwo(x, LastByte(s));
    }
  }

  lemma FilledOne(x: sextet, p: octet)
    requires Carries(1, x, p)
    ensures Completed(1, x, LeftOver(1, p) << 4) == [p]
  {
  }

  lemma FilledTwo(x: sextet, p: octet)
    requires Carries(2, x, p)
    ensures Completed(2, x, LeftOver(2, p) << 2) == [p]
  {
  }

  predicate IsSpace(c: octet) {
    c == 32 || (9 <= c && c <= 13)
  }

  // ---------------------------------------------------------------- encoding

  function Padding(s: seq<octet>): seq<octet> {
    if |s| % 3 == 0 then [] else if |s| % 3 == 1 then [PAD, PAD] else [PAD]
  }

  /** The right shift by the number of bits that are left. */
  function ShiftRight(acc: bv32, bits: int): bv32 {
    if bits == 0 then acc else if bits == 2 then acc >> 2 else if bits == 4 then acc >> 4 else acc >> 6
  }

  /** The left shift that fills the last group with zero bits. */
  function ShiftLeft(acc: bv32, bits: int): bv32 {
    if bits == 4 then acc << 4 else acc << 2
  }

  /** The accumulator after one more byte; its old bits move up and are never cleared. */
  function Append8(acc: bv32, c: octet): bv32 {
    (acc << 8) | c
  }

  function Low6(v: bv32): sextet {
    v & 63
  }

  /** What the accumulator holds after the bytes `s`: the pending bits, below anything at all. */
  predicate Holds(acc: bv32, bits: int, s: seq<octet>) {
    && bits == 2 * (|s| % 3)
    && (|s| % 3 == 1 ==> acc & 3 == Pending(s))
    && (|s| % 3 == 2 ==> acc & 15 == Pending(s))
  }

  /** The groups that are taken out of the accumulator after a byte has been put in; older bits do not matter. */
  lemma GroupOut0(acc: bv32, c: octet)
    ensures Low6(Append8(acc, c) >> 2) == Emitted(0, 0, c)[0]
    ensures Append8(acc, c) & 3 == c & 3
  {
  }

  lemma GroupOut1(acc: bv32, pending: bv32, c: octet)
    requires acc & 3 == pending
    ensures pending < 4 && Low6(Append8(acc, c) >> 4) == Emitted(1, pending, c)[0]
    ensures Append8(acc, c) & 15 == c & 15
  {
  }

  lemma GroupsOut2(acc: bv32, pending: bv32, c: octet)
    requires acc & 15 == pending
    ensures pending < 16 && Low6(Append8(acc, c) >> 6) == Emitted(2, pending, c)[0]
    ensures Low6(Append8(acc, c)) == Emitted(2, pending, c)[1]
  {
  }

  /** One byte goes in, one or two groups come out. */
  method EncodeByte(retval: seq<octet>, from: nat, acc: bv32, collected: int, c: octet, ghost s: seq<octet>)
    returns (written: seq<octet>, outpos: nat, accumulator: bv32, bits: int)
    requires Holds(acc, collected, s) && from + |Emitted(|s| % 3, Pending(s), c)| <= |retval|
    ensures Holds(accumulator, bits, s + [c]) && outpos == from + |Emitted(|s| % 3, Pending(s), c)|
    ensures written == retval[..from] + Letters(Emitted(|s| % 3, Pending(s), c)) + retval[outpos..]
  {
    hide Emitted, Pending, Letters, Letter, Holds, Append8, Low6, ShiftRight;
    ghost var e := Emitted(|s| % 3, Pending(s), c);
    HoldsMore(acc, collected, s, c);
    written, outpos, accumulator, bits := retval, from, Append8(acc, c), collected + 8;
    assert retval == retval[..from] + Letters([]) + retval[from..] by {
      NoLetters();
    }
    while bits >= 6
      invariant from <= outpos <= from + |e| && bits == collected + 8 - 6 * (outpos - from)
      invariant written == retval[..from] + Letters(e[..outpos - from]) + retval[outpos..]
      decreases bits
    {
      bits := bits - 6;
      LettersSnoc(retval, from, e, outpos, written);
      var v := Low6(ShiftRight(accumulator, bits));
      assert v == e[outpos - from];
      written := written[outpos := Letter(v)];
      outpos := outpos + 1;
    }
    assert e[..|e|] == e;
  }

  lemma NoLetters()
    ensures Letters([]) == []
  {
  }

  /** One more letter is written over the retval's own byte. */
  lemma LettersSnoc(retval: seq<octet>, from: nat, e: seq<sextet>, at: nat, w: seq<octet>)
    requires from <= at < from + |e| <= |retval| && w == retval[..from] + Letters(e[..at - from]) + retval[at..]
    ensures |w| == |retval|
    ensures w[at := Letter(e[at - from])] == retval[..from] + Letters(e[..at + 1 - from]) + retval[at + 1..]
  {
    hide Letter;
    var k := at - from;
    assert Letters(e[..k + 1]) == Letters(e[..k]) + [Letter(e[k])];
    OneOver(retval[..from], Letters(e[..k]), retval[at..], Letter(e[k]));
  }

  lemma OneOver(a: seq<octet>, b: seq<octet>, c: seq<octet>, x: octet)
    requires c != []
    ensures (a + b + c)[|a| + |b| := x] == a + (b + [x]) + c[1..]
  {
  }

  /** The accumulator after one more byte, and what it shows under each shift. */
  lemma HoldsMore(acc: bv32, collected: int, s: seq<octet>, c: octet)
    requires Holds(acc, collected, s)
    ensures var e := Emitted(|s| % 3, Pending(s), c); var y := Append8(acc, c); var bits := collected + 8;
      && bits - 6 * |e| < 6 && (forall k | 0 <= k < |e| :: bits - 6 * k >= 6)
      && (forall k | 0 <= k < |e| :: Low6(ShiftRight(y, bits - 6 - 6 * k)) == e[k])
      && Holds(y, bits - 6 * |e|, s + [c])
  {
    hide Emitted, Pending, Append8, Low6;
    PendingAfter(s, c);
    PendingIs(s);
    if |s| % 3 == 0 {
      GroupOut0(acc, c);
    } else if |s| % 3 == 1 {
      GroupOut1(acc, Pending(s), c);
    } else {
      GroupsOut2(acc, Pending(s), c);
    }
  }

  method Encode(bindata: seq<octet>) returns (r: seq<octet>)
    requires bindata != []
    ensures r == Letters(Sextets(bindata)) + Padding(bindata) && |r| == (|bindata| + 2) / 3 * 4
  {
    hide Groups, Emitted, Pending, Letters, Letter, Holds, Sextets;
    var length := (|bindata| + 2) / 3 * 4;
    ghost var pads := seq(length, _ => PAD);
    var retval: seq<octet> := seq(length, _ => PAD);
    var outpos, bits := 0, 0;
    var accumulator: bv32 := 0;
    NothingYet(bindata);
    assert retval == [] + pads[0..];
    for i := 0 to |bindata|
      invariant outpos == |Groups(bindata[..i])| <= length && Holds(accumulator, bits, bindata[..i])
      invariant retval == Letters(Groups(bindata[..i])) + pads[outpos..]
    {
      ghost var before := bindata[..i];
      assert bindata[..i + 1] == before + [bindata[i]];
      GroupsSnoc(before, bindata[i]);
      RoomLeft(bindata, i);
      LettersCat(Groups(before), Emitted(|before| % 3, Pending(before), bindata[i]));
      ghost var had, at := retval, outpos;
      retval, outpos, accumulator, bits := EncodeByte(retval, outpos, accumulator, bits, bindata[i], before);
      assert had[..at] == Letters(Groups(before)) && had[outpos..] == pads[outpos..];
    }
    assert bindata[..|bindata|] == bindata;
    r := WriteLast(bindata, retval, outpos, accumulator, bits, pads);
  }

  /** The trailing bits, filled up with zero bits. */
  method WriteLast(bindata: seq<octet>, retval: seq<octet>, outpos: nat, acc: bv32, bits: int, ghost pads: seq<octet>)
    returns (r: seq<octet>)
    requires outpos == |Groups(bindata)| && Holds(acc, bits, bindata)
    requires |pads| == (|bindata| + 2) / 3 * 4 && (forall i | 0 <= i < |pads| :: pads[i] == PAD) && outpos <= |pads|
    requires retval == Letters(Groups(bindata)) + pads[outpos..]
    ensures r == Letters(Sextets(bindata)) + Padding(bindata) && |r| == (|bindata| + 2) / 3 * 4
  {
    hide Groups, Pending, Letters, Letter, Holds, ShiftLeft, Low6, Filled, Padding;
    r := retval;
    LastLength(bindata, bits, acc);
    LettersCat(Groups(bindata), Filled(bindata));
    if bits > 0 {
      LastGroup(acc, bits, bindata);
      var accumulator := ShiftLeft(acc, 6 - bits);
      r := r[outpos := Letter(Low6(accumulator))];
      OneLetter(Low6(accumulator));
      Replaced(Letters(Groups(bindata)), pads[outpos..], Letter(Low6(accumulator)));
      assert pads[outpos..][1..] == pads[outpos + 1..];
    } else {
      NoLetters();
    }
    Pads(bindata, pads, |Sextets(bindata)|);
  }

  lemma Replaced(a: seq<octet>, b: seq<octet>, x: octet)
    requires b != []
    ensures (a + b)[|a| := x] == a + [x] + b[1..]
  {
  }

  lemma LastLength(s: seq<octet>, bits: int, acc: bv32)
    requires Holds(acc, bits, s)
    ensures bits == 2 * (|s| % 3) && |Groups(s)| == |s| / 3 * 4 + |s| % 3
    ensures |Filled(s)| == (if |s| % 3 == 0 then 0 else 1) && (bits == 0 <==> Filled(s) == [])
  {
    hide Groups, Pending;
    GroupsLength(s);
  }

  lemma OneLetter(v: sextet)
    ensures Letters([v]) == [Letter(v)]
  {
  }

  lemma Pads(s: seq<octet>, pads: seq<octet>, n: nat)
    requires |pads| == (|s| + 2) / 3 * 4 && (forall i | 0 <= i < |pads| :: pads[i] == PAD)
    requires n == |s| / 3 * 4 + |s| % 3 + if |s| % 3 == 0 then 0 else 1
    ensures n <= |pads| && pads[n..] == Padding(s)
  {
  }

  lemma NothingYet(s: seq<octet>)
    ensures Groups(s[..0]) == [] && Holds(0, 0, s[..0]) && Letters([]) == []
  {
  }

  lemma LettersCat(a: seq<sextet>, b: seq<sextet>)
    ensures Letters(a + b) == Letters(a) + Letters(b)
  {
  }

  lemma RoomLeft(s: seq<octet>, i: nat)
    requires i < |s|
    ensures |Groups(s[..i])| + |Emitted(i % 3, Pending(s[..i]), s[i])| <= (|s| + 2) / 3 * 4
  {
    hide Groups, Emitted, Pending;
    GroupsLength(s[..i]);
  }

  lemma LastGroup(acc: bv32, bits: int, s: seq<octet>)
    requires Holds(acc, bits, s) && bits > 0
    ensures Filled(s) == [Low6(ShiftLeft(acc, 6 - bits))]
  {
    hide Pending, ShiftLeft, Low6;
    if bits == 2 {
      LastTwoBits(acc);
    } else {
      LastFourBits(acc);
    }
  }

  lemma LastTwoBits(acc: bv32)
    ensures Low6(ShiftLeft(acc, 4)) == (acc & 3) << 4
  {
  }

  lemma LastFourBits(acc: bv32)
    ensures Low6(ShiftLeft(acc, 2)) == (acc & 15) << 2
  {
  }

  // ---------------------------------------------------------------- decoding

  /** The letters of a text, without white space and padding; `None` when there is anything else. */
  datatype Decoding<+T> = Decoded(value: T) | InvalidArgument

  function Significant(text: seq<octet>): seq<octet>
    decreases |text|
  {
    if text == [] then []
    else
      var c := text[|text| - 1];
      Significant(text[..|text| - 1]) + if IsSpace(c) || c == PAD then [] else [c]
  }

  /** The groups that the letters stand for, up to the first byte that is no letter. */
  function Values(cs: seq<octet>): Decoding<seq<sextet>>
    decreases |cs|
  {
    if cs == [] then Decoded([])
    else
      var before := Values(cs[..|cs| - 1]);
      var v := Reverse(cs[|cs| - 1]);
      if before.InvalidArgument? || v > 63 then InvalidArgument else Decoded(before.value + [v])
  }

  /** The accumulator shows the bits of the last group that are not used yet, `n` being the number of groups modulo 4. */
  predicate Shows(acc: bv32, bits: int, n: nat, p: sextet) {
    if n == 0 then bits == 0
    else if n == 1 then bits == 6 && acc & 63 == p
    else if n == 2 then bits == 4 && acc & 15 == p & 15
    else bits == 2 && acc & 3 == p & 3
  }

  predicate HoldsGroups(acc: bv32, bits: int, vs: seq<sextet>) {
    Shows(acc, bits, |vs| % 4, LastOf(vs))
  }

  /** The byte that is taken out of the accumulator after a group has been put in; older bits do not matter. */
  lemma ByteOut1(acc: bv32, p: sextet, v: sextet)
    requires acc & 63 == p
    ensures Completed(1, p, v) == [ShiftRight((acc << 6) | v, 4) & 255]
  {
  }

  lemma ByteOut2(acc: bv32, p: sextet, v: sextet)
    requires acc & 15 == p & 15
    ensures Completed(2, p, v) == [ShiftRight((acc << 6) | v, 2) & 255]
  {
  }

  lemma ByteOut3(acc: bv32, p: sextet, v: sextet)
    requires acc & 3 == p & 3
    ensures Completed(3, p, v) == [ShiftRight((acc << 6) | v, 0) & 255]
  {
  }

  lemma LowBits(acc: bv32, v: sextet)
    ensures var y := (acc << 6) | v; y & 63 == v && y & 15 == v & 15 && y & 3 == v & 3
  {
  }

  lemma CompletedLength(n: nat, p: sextet, v: sextet)
    requires n < 4
    ensures |Completed(n, p, v)| == if n == 0 then 0 else 1
  {
  }

  lemma LengthAfter(vs: seq<sextet>, v: sextet)
    ensures |vs + [v]| % 4 == (if |vs| % 4 == 3 then 0 else |vs| % 4 + 1) && LastOf(vs + [v]) == v
  {
  }

  /** One letter goes in, at most one byte comes out. */
  method DecodeLetter(acc: bv32, collected: int, v: sextet, ghost vs: seq<sextet>)
    returns (accumulator: bv32, bits: int, out: seq<octet>)
    requires HoldsGroups(acc, collected, vs)
    ensures HoldsGroups(accumulator, bits, vs + [v]) && out == Completed(|vs| % 4, LastOf(vs), v)
  {
    hide Completed, HoldsGroups;
    HoldsNext(acc, collected, vs, v);
    accumulator, bits, out := (acc << 6) | v, collected + 6, [];
    if bits >= 8 {
      bits := bits - 8;
      out := [ShiftRight(accumulator, bits) & 255];
    }
  }

  /** The accumulator after one more group, and the byte that it shows. */
  lemma HoldsNext(acc: bv32, collected: int, vs: seq<sextet>, v: sextet)
    requires HoldsGroups(acc, collected, vs)
    ensures var y := (acc << 6) | v; var bits := collected + 6; var c := Completed(|vs| % 4, LastOf(vs), v);
      && (bits < 8 ==> HoldsGroups(y, bits, vs + [v]) && c == [])
      && (bits >= 8 ==> HoldsGroups(y, bits - 8, vs + [v]) && c == [ShiftRight(y, bits - 8) & 255])
  {
    hide Completed, LastOf, Shows;
    LengthAfter(vs, v);
    ShowsNext(acc, collected, |vs| % 4, LastOf(vs), v);
    CompletedNext(acc, collected, |vs| % 4, LastOf(vs), v);
  }

  lemma ShowsNext(acc: bv32, collected: int, n: nat, p: sextet, v: sextet)
    requires n < 4 && Shows(acc, collected, n, p)
    ensures var y := (acc << 6) | v; var bits := collected + 6;
      if n == 0 then bits == 6 && Shows(y, bits, 1, v)
      else bits >= 8 && Shows(y, bits - 8, if n == 3 then 0 else n + 1, v)
  {
    hide Shows;
    LowBits(acc, v);
    ShowsLow((acc << 6) | v, v);
    ShownBits(acc, collected, n, p);
  }

  lemma CompletedNext(acc: bv32, collected: int, n: nat, p: sextet, v: sextet)
    requires n < 4 && Shows(acc, collected, n, p)
    ensures var c := Completed(n, p, v);
      if n == 0 then c == [] else c == [ShiftRight((acc << 6) | v, collected - 2) & 255]
  {
    hide Completed, ShiftRight, Shows;
    CompletedLength(n, p, v);
    ShownBits(acc, collected, n, p);
    if n == 1 {
      ByteOut1(acc, p, v);
    } else if n == 2 {
      ByteOut2(acc, p, v);
    } else if n == 3 {
      ByteOut3(acc, p, v);
    }
  }

  lemma ShownBits(acc: bv32, bits: int, n: nat, p: sextet)
    requires n < 4 && Shows(acc, bits, n, p)
    ensures bits == if n == 0 then 0 else if n == 1 then 6 else if n == 2 then 4 else 2
    ensures (n == 1 ==> acc & 63 == p) && (n == 2 ==> acc & 15 == p & 15) && (n == 3 ==> acc & 3 == p & 3)
  {
  }

  lemma ShowsLow(y: bv32, v: sextet)
    requires y & 63 == v && y & 15 == v & 15 && y & 3 == v & 3
    ensures Shows(y, 0, 0, v) && Shows(y, 6, 1, v) && Shows(y, 4, 2, v) && Shows(y, 2, 3, v)
  {
  }

  method Decode(ascdata: seq<octet>) returns (r: Decoding<seq<octet>>)
    ensures var vs := Values(Significant(ascdata));
      r == if vs.InvalidArgument? then InvalidArgument else Decoded(Octets(vs.value))
  {
    hide Octets, Completed, HoldsGroups;
    var retval: seq<octet> := [];
    var accumulator: bv32, bits := 0, 0;
    ghost var vs: seq<sextet> := [];
    NothingDecoded(ascdata);
    for i := 0 to |ascdata|
      invariant Values(Significant(ascdata[..i])) == Decoded(vs) && retval == Octets(vs)
      invariant HoldsGroups(accumulator, bits, vs)
    {
      var c := ascdata[i];
      assert ascdata[..i + 1][..i] == ascdata[..i];
      if !(IsSpace(c) || c == PAD) {
        ValuesSnoc(Significant(ascdata[..i]), c);
        if Reverse(c) > 63 {
          StaysInvalid(ascdata, i + 1);
          return InvalidArgument;
        }
        var out;
        OctetsSnoc(vs, Reverse(c));
        accumulator, bits, out := DecodeLetter(accumulator, bits, Reverse(c), vs);
        retval := retval + out;
        vs := vs + [Reverse(c)];
      } else {
        assert Significant(ascdata[..i]) + [] == Significant(ascdata[..i]);
      }
    }
    assert ascdata[..|ascdata|] == ascdata;
    r := Decoded(retval);
  }

  lemma NothingDecoded(text: seq<octet>)
    ensures Values(Significant(text[..0])) == Decoded([]) && Octets([]) == [] && HoldsGroups(0, 0, [])
  {
  }

  lemma ValuesSnoc(cs: seq<octet>, c: octet)
    ensures Values(cs + [c])
         == if Values(cs).InvalidArgument? || Reverse(c) > 63 then InvalidArgument
            else Decoded(Values(cs).value + [Reverse(c)])
  {
    assert (cs + [c])[..|cs|] == cs;
  }

  lemma {:induction false} StaysInvalid(text: seq<octet>, i: nat)
    requires i <= |text| && Values(Significant(text[..i])).InvalidArgument?
    ensures Values(Significant(text)).InvalidArgument?
    decreases |text|
  {
    if i == |text| {
      assert text[..i] == text;
    } else {
      var before := text[..|text| - 1];
      assert before[..i] == text[..i];
      StaysInvalid(before, i);
      ValuesSnoc(Significant(before), text[|text| - 1]);
      assert Significant(before) + [] == Significant(before);
    }
  }

  // ---------------------------------------------------------------- round trip

  lemma {:induction false} ValuesOfLetters(vs: seq<sextet>)
    ensures Values(Letters(vs)) == Decoded(vs)
    decreases |vs|
  {
    if vs != [] {
      var before, v := vs[..|vs| - 1], vs[|vs| - 1];
      ValuesOfLetters(before);
      assert Letters(vs) == Letters(before) + [Letter(v)] && vs == before + [v];
      ValuesSnoc(Letters(before), Letter(v));
      ReverseOfLetter(v);
    }
  }

  lemma {:induction false} SignificantLetters(vs: seq<sextet>, pad: seq<octet>)
    requires forall i | 0 <= i < |pad| :: pad[i] == PAD
    ensures Significant(Letters(vs) + pad) == Letters(vs)
    decreases |vs|, |pad|
  {
    hide Significant, Letters, Letter;
    if pad != [] {
      SignificantLetters(vs, pad[..|pad| - 1]);
      SignificantSnoc(Letters(vs) + pad[..|pad| - 1], PAD);
      assert Letters(vs) + pad == Letters(vs) + pad[..|pad| - 1] + [PAD];
    } else if vs != [] {
      var before, v := vs[..|vs| - 1], vs[|vs| - 1];
      SignificantLetters(before, []);
      SignificantSnoc(Letters(before), Letter(v));
      ReverseOfLetter(v);
      OneLetter(v);
      LettersCat(before, [v]);
      assert vs == before + [v];
      assert Letters(vs) + pad == Letters(vs) && Letters(before) + [] == Letters(before);
    } else {
      NoLetters();
      SignificantNone();
      assert Letters(vs) + pad == [];
    }
  }

  lemma SignificantNone()
    ensures Significant([]) == []
  {
  }

  lemma SignificantSnoc(text: seq<octet>, c: octet)
    ensures Significant(text + [c]) == if IsSpace(c) || c == PAD then Significant(text) else Significant(text) + [c]
  {
    assert (text + [c])[..|text|] == text;
    assert Significant(text) + [] == Significant(text);
  }

  /** Decoding an encoded byte string gives it back, also when white space or padding has been inserted anywhere. */
  method EncodeAndDecode(s: seq<octet>, text: seq<octet>) returns (encoded: seq<octet>, r: Decoding<seq<octet>>)
    requires s != []
    ensures encoded == Letters(Sextets(s)) + Padding(s)
    ensures Significant(text) == Significant(encoded) ==> r == Decoded(s)
  {
    encoded := Encode(s);
    r := Decode(text);
    SignificantLetters(Sextets(s), Padding(s));
    ValuesOfLetters(Sextets(s));
    SextetsGiveBack(s);
  }

  // ---------------------------------------------------------------- the alphabet and the examples

  /** The 64 letters, one by one (table 1 of RFC 4648), and nothing else is a letter. */
  lemma Alphabet()
    ensures Letter(0) == 65 && Letter(1) == 66 && Letter(2) == 67 && Letter(3) == 68 && Letter(4) == 69 && Letter(5) == 70 && Letter(6) == 71 && Letter(7) == 72
    ensures Letter(8) == 73 && Letter(9) == 74 && Letter(10) == 75 && Letter(11) == 76 && Letter(12) == 77 && Letter(13) == 78 && Letter(14) == 79 && Letter(15) == 80
    ensures Letter(16) == 81 && Letter(17) == 82 && Letter(18) == 83 && Letter(19) == 84 && Letter(20) == 85 && Letter(21) == 86 && Letter(22) == 87 && Letter(23) == 88
    ensures Letter(24) == 89 && Letter(25) == 90 && Letter(26) == 97 && Letter(27) == 98 && Letter(28) == 99 && Letter(29) == 100 && Letter(30) == 101 && Letter(31) == 102
    ensures Letter(32) == 103 && Letter(33) == 104 && Letter(34) == 105 && Letter(35) == 106 && Letter(36) == 107 && Letter(37) == 108 && Letter(38) == 109 && Letter(39) == 110
    ensures Letter(40) == 111 && Letter(41) == 112 && Letter(42) == 113 && Letter(43) == 114 && Letter(44) == 115 && Letter(45) == 116 && Letter(46) == 117 && Letter(47) == 118
    ensures Letter(48) == 119 && Letter(49) == 120 && Letter(50) == 121 && Letter(51) == 122 && Letter(52) == 48 && Letter(53) == 49 && Letter(54) == 50 && Letter(55) == 51
    ensures Letter(56) == 52 && Letter(57) == 53 && Letter(58) == 54 && Letter(59) == 55 && Letter(60) == 56 && Letter(61) == 57 && Letter(62) == 43 && Letter(63) == 47
    ensures forall c: octet | Reverse(c) < 64 :: Letter(Reverse(c)) == c
  {
    forall c: octet | Reverse(c) < 64
      ensures Letter(Reverse(c)) == c
    {
      LetterOfReverse(c);
    }
  }

  lemma LetterOfReverse(c: octet)
    requires Reverse(c) < 64
    ensures Letter(Reverse(c)) == c
  {
  }

  /** White space and padding are passed over, and nothing else. */
  lemma PassedOver(c: octet)
    ensures Significant([c]) == if c == 9 || c == 10 || c == 11 || c == 12 || c == 13 || c == 32 || c == 61 then [] else [c]
  {
    assert [c][..0] == [];
    NothingSignificant();
    assert [] + [c] == [c];
    SpaceBytes(c);
  }

  lemma NothingSignificant()
    ensures Significant([]) == []
  {
  }

  lemma SpaceBytes(c: octet)
    ensures IsSpace(c) <==> c == 9 || c == 10 || c == 11 || c == 12 || c == 13 || c == 32
  {
  }

  /** The texts for `f`, `fo` and `foo` (section 10 of RFC 4648). */
  lemma Examples()
    ensures Letters(Sextets([102])) + Padding([102]) == [90, 103, 61, 61]
    ensures Letters(Sextets([102, 111])) + Padding([102, 111]) == [90, 109, 56, 61]
    ensures Letters(Sextets([102, 111, 111])) + Padding([102, 111, 111]) == [90, 109, 57, 118]
  {
    hide Letters, Sextets, Padding;
    ExampleSextets();
    ExampleLetters();
    assert Padding([102]) == [61, 61] && Padding([102, 111]) == [61] && Padding([102, 111, 111]) == [] by {
      ExamplePadding();
    }
  }

  lemma ExamplePadding()
    ensures Padding([102]) == [61, 61] && Padding([102, 111]) == [61] && Padding([102, 111, 111]) == []
  {
  }

  lemma ExampleSextets()
    ensures Sextets([102]) == [25, 32] && Sextets([102, 111]) == [25, 38, 60]
    ensures Sextets([102, 111, 111]) == [25, 38, 61, 47]
  {
    hide Emitted, Pending;
    ExampleBits();
    GroupsSnoc([], 102);
    GroupsSnoc([102], 111);
    GroupsSnoc([102, 111], 111);
    assert [] + [102] == [102 as octet] && [102] + [111] == [102 as octet, 111] && [102, 111] + [111] == [102 as octet, 111, 111];
    NoGroups();
    assert Groups([]) == [];
  }

  lemma ExampleBits()
    ensures Pending([]) == 0 && Pending([102]) == 2 && Pending([102, 111]) == 15
    ensures Emitted(0, 0, 102) == [25] && Emitted(1, 2, 111) == [38] && Emitted(2, 15, 111) == [61, 47]
    ensures Filled([102]) == [32] && Filled([102, 111]) == [60]
  {
  }

  lemma ExampleLetters()
    ensures Letters([25, 32]) == [90, 103] && Letters([25, 38, 60]) == [90, 109, 56]
    ensures Letters([25, 38, 61, 47]) == [90, 109, 57, 118]
  {
  }
}
