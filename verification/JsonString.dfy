/** Strings in JSON text: escaping, unescaping and the UTF-8 of escaped code points. */
module JsonString {
  import opened Bytes
  import opened JsonNumber

  const QUOTE: byte := 34
  const BACKSLASH: byte := 92
  const LETTER_U: byte := 117

  // ---------------------------------------------------------------- writing

  /** The byte behind the backslash; 0 for a byte that is written as it is. */
  function Escape(c: byte): byte {
    if c == 8 then 98 else if c == 9 then 116 else if c == 10 then 110 else if c == 12 then 102
    else if c == 13 then 114 else if c == QUOTE then QUOTE else if c == BACKSLASH then BACKSLASH
    else if c < 32 then LETTER_U else 0
  }

  function HexDigit(n: nat): byte
    requires n < 16
  {
    if n < 10 then 48 + n else 55 + n
  }

  function EscapedByte(c: byte): seq<byte> {
    var e := Escape(c);
    if e == 0 then [c]
    else if e == LETTER_U then [BACKSLASH, e, 48, 48, HexDigit(c / 16), HexDigit(c % 16)]
    else [BACKSLASH, e]
  }

  function Escaped(s: seq<byte>): seq<byte> {
    if s == [] then [] else EscapedByte(s[0]) + Escaped(s[1..])
  }

  /** A string literal. */
  function Quoted(s: seq<byte>): seq<byte> {
    [QUOTE] + Escaped(s) + [QUOTE]
  }

  lemma {:induction false} EscapedSnoc(s: seq<byte>, c: byte)
    ensures Escaped(s + [c]) == Escaped(s) + EscapedByte(c)
    decreases |s|
  {
    if s == [] {
      assert s + [c] == [c] && [c][1..] == [];
    } else {
      assert (s + [c])[1..] == s[1..] + [c];
      EscapedSnoc(s[1..], c);
    }
  }

  lemma NothingEscaped(str: seq<byte>)
    ensures Escaped(str[..0]) == []
  {
  }

  lemma Associative(a: seq<byte>, b: seq<byte>, c: seq<byte>)
    ensures a + b + c == a + (b + c)
  {
  }

  method WriteByte(c: byte) returns (out: seq<byte>)
    ensures out == EscapedByte(c)
  {
    if Escape(c) != 0 {
      out := [BACKSLASH];
      out := out + [Escape(c)];
      if Escape(c) == LETTER_U {
        out := out + [48];
        out := out + [48];
        out := out + [HexDigit(c / 16)];
        out := out + [HexDigit(c % 16)];
      }
    } else {
      out := [c];
    }
  }

  method WriteString(str: seq<byte>) returns (out: seq<byte>)
    ensures out == Quoted(str)
  {
    hide Escaped, EscapedByte;
    out := [QUOTE];
    NothingEscaped(str);
    for i := 0 to |str|
      invariant out == [QUOTE] + Escaped(str[..i])
    {
      var c := str[i];
      EscapedSnoc(str[..i], c);
      assert str[..i + 1] == str[..i] + [c];
      var written := WriteByte(c);
      Associative([QUOTE], Escaped(str[..i]), written);
      out := out + written;
    }
    assert str[..|str|] == str;
    out := out + [QUOTE];
  }

  // ---------------------------------------------------------------- code points

  /** UTF-8 of a code point. */
  function Encode(cp: nat): (s: seq<byte>)
    requires cp <= 0x10FFFF
  {
    if cp <= 0x7F then [cp]
    else if cp <= 0x7FF then [0xC0 + cp / 0x40, 0x80 + cp % 0x40]
    else if cp <= 0xFFFF then [0xE0 + cp / 0x1000, 0x80 + cp / 0x40 % 0x40, 0x80 + cp % 0x40]
    else [0xF0 + cp / 0x40000, 0x80 + cp / 0x1000 % 0x40, 0x80 + cp / 0x40 % 0x40, 0x80 + cp % 0x40]
  }

  /** The payload bits of a UTF-8 sequence, by its first byte (table 3 of RFC 3629, section 3). */
  function Decode(s: seq<byte>): int
    requires 1 <= |s| <= 4
  {
    var first: int := s[0];
    if |s| == 1 then first
    else if |s| == 2 then (first - 0xC0) * 0x40 + Tail(s[1])
    else if |s| == 3 then (first - 0xE0) * 0x1000 + Tail(s[1]) * 0x40 + Tail(s[2])
    else (first - 0xF0) * 0x40000 + Tail(s[1]) * 0x1000 + Tail(s[2]) * 0x40 + Tail(s[3])
  }

  function Tail(c: int): int {
    c - 0x80
  }

  /** The encoding is well-formed, as short as possible, and gives the code point back. */
  lemma EncodeIsUtf8(cp: nat)
    requires cp <= 0x10FFFF
    ensures var s := Encode(cp);
      && |s| == (if cp < 0x80 then 1 else if cp < 0x800 then 2 else if cp < 0x10000 then 3 else 4)
      && Decode(s) == cp
      && (forall i | 0 < i < |s| :: 0x80 <= s[i] < 0xC0)
      && (|s| == 1 ==> s[0] < 0x80) && (|s| == 2 ==> 0xC0 <= s[0] < 0xE0)
      && (|s| == 3 ==> 0xE0 <= s[0] < 0xF0) && (|s| == 4 ==> 0xF0 <= s[0] < 0xF8)
  {
    var a, b := cp / 0x40, cp / 0x1000;
    assert b == a / 0x40 && cp / 0x40000 == b / 0x40;
  }

  // ---------------------------------------------------------------- reading

  /** What stands behind the backslash of a short escape; 0 for anything else. */
  function Unescape(e: byte): byte {
    if e == QUOTE || e == BACKSLASH || e == 47 then e
    else if e == 98 then 8 else if e == 102 then 12 else if e == 110 then 10 else if e == 114 then 13
    else if e == 116 then 9 else 0
  }

  /** The value of a hexadecimal digit, 16 for anything else. */
  function HexValue(c: byte): nat {
    if 48 <= c <= 57 then c - 48 else if 65 <= c <= 70 then c - 55 else if 97 <= c <= 102 then c - 87 else 16
  }

  function Hex4(s: seq<byte>): (r: Result<nat>)
    ensures r.Ok? ==> r.value < 0x10000 && |s| >= 4 && r.rest == s[4..]
  {
    if |s| < 4 || HexValue(s[0]) == 16 || HexValue(s[1]) == 16 || HexValue(s[2]) == 16 || HexValue(s[3]) == 16 then Err
    else
      Ok(HexValue(s[0]) * 0x1000 + HexValue(s[1]) * 0x100 + HexValue(s[2]) * 0x10 + HexValue(s[3]), s[4..])
  }

  /** The code point of an escape, its `\u` passed already; surrogates come in pairs. */
  function CodePoint(s: seq<byte>): (r: Result<nat>)
    ensures r.Ok? ==> r.value <= 0x10FFFF && |r.rest| < |s| && r.rest == s[|s| - |r.rest|..]
  {
    var hi := Hex4(s);
    if hi.Err? then Err
    else if !(0xD800 <= hi.value <= 0xDBFF) then hi
    else if Peek(hi.rest) != BACKSLASH || Peek(hi.rest[1..]) != LETTER_U then Err
    else
      var lo := Hex4(hi.rest[2..]);
      if lo.Err? || lo.value < 0xDC00 || lo.value > 0xDFFF then Err
      else Ok((hi.value - 0xD800) * 0x400 + (lo.value - 0xDC00) + 0x10000, lo.rest)
  }

  function Prepend(done: seq<byte>, r: Result<seq<byte>>): Result<seq<byte>> {
    if r.Ok? then Ok(done + r.value, r.rest) else Err
  }

  /** The rest of a string literal. */
  function CharsAt(s: seq<byte>): (r: Result<seq<byte>>)
    ensures r.Ok? ==> |r.rest| < |s| && r.rest == s[|s| - |r.rest|..]
    decreases |s|
  {
    if s == [] then Err
    else if s[0] == BACKSLASH then
      var e := Peek(s[1..]);
      if Unescape(e) != 0 then Prepend([Unescape(e)], CharsAt(s[2..]))
      else if e == LETTER_U then
        var cp := CodePoint(s[2..]);
        if cp.Err? then Err else Prepend(Encode(cp.value), CharsAt(cp.rest))
      else Err
    else if s[0] == QUOTE then Ok([], s[1..])
    else if s[0] < 0x20 then Err
    else Prepend([s[0]], CharsAt(s[1..]))
  }

  /** Every byte string is read back as it was written, zero bytes and control characters included. */
  lemma {:induction false} StringRoundTrip(str: seq<byte>, rest: seq<byte>)
    ensures CharsAt(Escaped(str) + [QUOTE] + rest) == Ok(str, rest)
    decreases |str|
  {
    hide CharsAt, EscapedByte;
    if str == [] {
      CharsStep([QUOTE] + rest);
      assert Escaped(str) + [QUOTE] + rest == [QUOTE] + rest && ([QUOTE] + rest)[1..] == rest;
    } else {
      var c, tail := str[0], Escaped(str[1..]) + [QUOTE] + rest;
      StringRoundTrip(str[1..], rest);
      FirstEscape(EscapedByte(c), Escaped(str[1..]), rest);
      EscapeReadsBack(c, tail);
      assert str == [c] + str[1..];
    }
  }

  lemma FirstEscape(a: seq<byte>, b: seq<byte>, rest: seq<byte>)
    ensures a + b + [QUOTE] + rest == a + (b + [QUOTE] + rest)
  {
  }

  lemma EscapeReadsBack(c: byte, tail: seq<byte>)
    ensures CharsAt(EscapedByte(c) + tail) == Prepend([c], CharsAt(tail))
  {
    hide CharsAt, CodePoint, Encode, Prepend, HexDigit;
    if Escape(c) == 0 {
      CharsStep([c] + tail);
      assert ([c] + tail)[1..] == tail;
    } else if Escape(c) == LETTER_U {
      var digits := [48, 48, HexDigit(c / 16), HexDigit(c % 16)];
      ControlReadsBack(c, tail);
      AfterEscape(LETTER_U, digits + tail);
      CharsStep([BACKSLASH, LETTER_U] + (digits + tail));
      assert EscapedByte(c) + tail == [BACKSLASH, LETTER_U] + (digits + tail);
    } else {
      AfterEscape(Escape(c), tail);
      CharsStep([BACKSLASH, Escape(c)] + tail);
    }
  }

  lemma AfterEscape(e: byte, tail: seq<byte>)
    ensures var s := [BACKSLASH, e] + tail; s[0] == BACKSLASH && s[1..][0] == e && s[2..] == tail
  {
  }

  lemma ControlReadsBack(c: byte, tail: seq<byte>)
    requires c < 32
    ensures CodePoint([48, 48, HexDigit(c / 16), HexDigit(c % 16)] + tail) == Ok(c as nat, tail) && Encode(c as nat) == [c]
  {
    var s := [48, 48, HexDigit(c / 16), HexDigit(c % 16)] + tail;
    assert s[4..] == tail;
    assert HexValue(HexDigit(c / 16)) == c / 16 && HexValue(HexDigit(c % 16)) == c % 16;
  }

  // ---------------------------------------------------------------- the loops of the reader

  /** ParseHex4, on its own copy of the stream. */
  method ParseHex4(s: seq<byte>) returns (r: Result<nat>)
    ensures r == Hex4(s)
  {
    var codepoint := 0;
    for i := 0 to 4
      invariant i <= |s| && forall k | 0 <= k < i :: HexValue(s[k]) < 16
      invariant i == 0 ==> codepoint == 0
      invariant i == 1 ==> codepoint == HexValue(s[0])
      invariant i == 2 ==> codepoint == HexValue(s[0]) * 0x10 + HexValue(s[1])
      invariant i == 3 ==> codepoint == HexValue(s[0]) * 0x100 + HexValue(s[1]) * 0x10 + HexValue(s[2])
      invariant i == 4 ==> Hex4(s) == Ok(codepoint, s[4..])
    {
      var c: int := Peek(s[i..]);
      codepoint := codepoint * 16;
      if 48 <= c <= 57 {
        codepoint := codepoint + (c - 48);
      } else if 65 <= c <= 70 {
        codepoint := codepoint + (c - 55);
      } else if 97 <= c <= 102 {
        codepoint := codepoint + (c - 87);
      } else {
        return Err;
      }
    }
    r := Ok(codepoint, s[4..]);
  }

  /** An escape with its letter u passed: one code point, from one or two groups of digits. */
  method ParseCodePoint(s: seq<byte>) returns (r: Result<nat>)
    ensures r == CodePoint(s)
  {
    var hi := ParseHex4(s);
    if hi.Err? {
      return Err;
    }
    var codepoint, rest := hi.value, hi.rest;
    if codepoint >= 0xD800 && codepoint <= 0xDBFF {
      if Peek(rest) != BACKSLASH || Peek(rest[1..]) != LETTER_U {
        return Err;
      }
      var lo := ParseHex4(rest[2..]);
      if lo.Err? || lo.value < 0xDC00 || lo.value > 0xDFFF {
        return Err;
      }
      codepoint := (codepoint - 0xD800) * 0x400 + (lo.value - 0xDC00) + 0x10000;
      rest := lo.rest;
    }
    r := Ok(codepoint, rest);
  }

  /** ParseString, its opening quote passed, on its own copy of the stream; `stack` takes the decoded bytes. */
  method ParseString(s: seq<byte>) returns (r: Result<seq<byte>>)
    ensures r == CharsAt(s)
  {
    hide CharsAt, CodePoint, Encode;
    var stack: seq<byte> := [];
    var rest := s;
    NothingDecoded(s);
    while true
      invariant CharsAt(s) == Prepend(stack, CharsAt(rest))
      decreases |rest|
    {
      CharsStep(rest);
      if rest == [] {
        return Err;
      }
      var c := rest[0];
      if c == BACKSLASH {
        var e := Peek(rest[1..]);
        if Unescape(e) != 0 {
          PrependTwice(stack, [Unescape(e)], CharsAt(rest[2..]));
          stack := stack + [Unescape(e)];
          rest := rest[2..];
        } else if e == LETTER_U {
          var cp := ParseCodePoint(rest[2..]);
          if cp.Err? {
            return Err;
          }
          PrependTwice(stack, Encode(cp.value), CharsAt(cp.rest));
          stack := stack + Encode(cp.value);
          rest := cp.rest;
        } else {
          return Err;
        }
      } else if c == QUOTE {
        assert stack + [] == stack;
        return Ok(stack, rest[1..]);
      } else if c < 0x20 {
        return Err;
      } else {
        PrependTwice(stack, [c], CharsAt(rest[1..]));
        stack := stack + [c];
        rest := rest[1..];
      }
    }
  }

  lemma NothingDecoded(s: seq<byte>)
    ensures CharsAt(s) == Prepend([], CharsAt(s))
  {
    if CharsAt(s).Ok? {
      assert [] + CharsAt(s).value == CharsAt(s).value;
    }
  }

  lemma PrependTwice(a: seq<byte>, b: seq<byte>, r: Result<seq<byte>>)
    ensures Prepend(a, Prepend(b, r)) == Prepend(a + b, r)
  {
    if r.Ok? {
      assert a + b + r.value == a + (b + r.value);
    }
  }

  lemma CharsStep(s: seq<byte>)
    ensures CharsAt(s) ==
      if s == [] then Err
      else if s[0] == BACKSLASH then
        var e := Peek(s[1..]);
        if Unescape(e) != 0 then Prepend([Unescape(e)], CharsAt(s[2..]))
        else if e == LETTER_U then
          var cp := CodePoint(s[2..]);
          if cp.Err? then Err else Prepend(Encode(cp.value), CharsAt(cp.rest))
        else Err
      else if s[0] == QUOTE then Ok([], s[1..])
      else if s[0] < 0x20 then Err
      else Prepend([s[0]], CharsAt(s[1..]))
  {
  }
}
