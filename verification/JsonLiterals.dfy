/** The tables of JSON strings, on the byte values themselves (section 2.5 of RFC 4627). */
module JsonLiterals {
  import opened Bytes
  import opened JsonNumber
  import opened JsonString

  /** The sixteen hexadecimal digits. */
  function Digit16(d: nat, upper: bool): byte
    requires d < 16
  {
    if upper then [48, 49, 50, 51, 52, 53, 54, 55, 56, 57, 65, 66, 67, 68, 69, 70][d]
    else [48, 49, 50, 51, 52, 53, 54, 55, 56, 57, 97, 98, 99, 100, 101, 102][d]
  }

  lemma Digits16(d: nat, upper: bool)
    requires d < 16
    ensures HexValue(Digit16(d, upper)) == d && HexDigit(d) == Digit16(d, true)
  {
  }

  lemma OnlyDigits16(c: byte)
    requires HexValue(c) != 16
    ensures exists d, upper :: 0 <= d < 16 && c == Digit16(d, upper)
  {
    var d := HexValue(c);
    assert c == Digit16(d, true) || c == Digit16(d, false);
  }

  /** What the writer makes of each byte. */
  lemma EscapeTable(c: byte)
    ensures EscapedByte(34) == [92, 34] && EscapedByte(92) == [92, 92]
    ensures EscapedByte(8) == [92, 98] && EscapedByte(9) == [92, 116] && EscapedByte(10) == [92, 110]
    ensures EscapedByte(12) == [92, 102] && EscapedByte(13) == [92, 114]
    ensures c < 32 && c != 8 && c != 9 && c != 10 && c != 12 && c != 13 ==>
      EscapedByte(c) == [92, 117, 48, 48, Digit16(c / 16, true), Digit16(c % 16, true)]
    ensures c >= 32 && c != 34 && c != 92 ==> EscapedByte(c) == [c]
  {
    if c < 32 {
      Digits16(c / 16, true);
      Digits16(c % 16, true);
    }
  }

  /** What the reader makes of each two-character escape. */
  lemma UnescapeTable(e: byte, tail: seq<byte>)
    ensures e == 34 || e == 92 || e == 47 ==> CharsAt([92, e] + tail) == Prepend([e], CharsAt(tail))
    ensures e == 98 ==> CharsAt([92, e] + tail) == Prepend([8], CharsAt(tail))
    ensures e == 102 ==> CharsAt([92, e] + tail) == Prepend([12], CharsAt(tail))
    ensures e == 110 ==> CharsAt([92, e] + tail) == Prepend([10], CharsAt(tail))
    ensures e == 114 ==> CharsAt([92, e] + tail) == Prepend([13], CharsAt(tail))
    ensures e == 116 ==> CharsAt([92, e] + tail) == Prepend([9], CharsAt(tail))
    ensures e !in [34, 92, 47, 98, 102, 110, 114, 116, 117] ==> CharsAt([92, e] + tail) == Err
  {
    hide CharsAt, CodePoint, Encode, Prepend;
    AfterEscape(e, tail);
    CharsStep([92, e] + tail);
  }

  // ---------------------------------------------------------------- code points

  /** A number below 65536 in four hexadecimal digits. */
  function FourDigits(n: nat, upper: bool): (s: seq<byte>)
    requires n < 65536
    ensures |s| == 4
  {
    [Digit16(n / 4096, upper), Digit16(n / 256 % 16, upper), Digit16(n / 16 % 16, upper), Digit16(n % 16, upper)]
  }

  lemma FourDigitsRead(n: nat, upper: bool, tail: seq<byte>)
    requires n < 65536
    ensures Hex4(FourDigits(n, upper) + tail) == Ok(n, tail)
  {
    hide Digit16, HexValue;
    Digits16(n / 4096, upper);
    Digits16(n / 256 % 16, upper);
    Digits16(n / 16 % 16, upper);
    Digits16(n % 16, upper);
    NumberOfFour(n);
    var s := FourDigits(n, upper) + tail;
    assert s[4..] == tail;
  }

  lemma NumberOfFour(n: nat)
    requires n < 65536
    ensures n / 4096 * 4096 + n / 256 % 16 * 256 + n / 16 % 16 * 16 + n % 16 == n
  {
    assert n / 256 == n / 4096 * 16 + n / 256 % 16;
    assert n / 16 == n / 256 * 16 + n / 16 % 16;
  }

  /** A code point outside the range of the first surrogates stands for itself. */
  lemma PlainCodePoint(cp: nat, upper: bool, tail: seq<byte>)
    requires cp < 0xD800 || 0xDC00 <= cp < 0x10000
    ensures CodePoint(FourDigits(cp, upper) + tail) == Ok(cp, tail)
  {
    hide FourDigits, Hex4;
    FourDigitsRead(cp, upper, tail);
  }

  /** A code point above them is written as two surrogates, ten bits in each. */
  lemma SurrogatePair(cp: nat, upper: bool, tail: seq<byte>)
    requires 0x10000 <= cp <= 0x10FFFF
    ensures var hi, lo := 0xD800 + (cp - 0x10000) / 1024, 0xDC00 + (cp - 0x10000) % 1024;
      CodePoint(FourDigits(hi, upper) + ([92, 117] + (FourDigits(lo, upper) + tail))) == Ok(cp, tail)
  {
    hide FourDigits, Hex4;
    var hi, lo := 0xD800 + (cp - 0x10000) / 1024, 0xDC00 + (cp - 0x10000) % 1024;
    var rest := FourDigits(lo, upper) + tail;
    FourDigitsRead(hi, upper, [92, 117] + rest);
    FourDigitsRead(lo, upper, tail);
    assert ([92, 117] + rest)[1..][0] == 117 && ([92, 117] + rest)[2..] == rest;
  }

  /** The first surrogate alone is an error, whatever else follows it. */
  lemma UnpairedSurrogate(hi: nat, upper: bool, tail: seq<byte>)
    requires 0xD800 <= hi < 0xDC00
    requires |tail| < 2 || tail[0] != 92 || tail[1] != 117 || Hex4(tail[2..]).Err?
             || Hex4(tail[2..]).value < 0xDC00 || Hex4(tail[2..]).value > 0xDFFF
    ensures CodePoint(FourDigits(hi, upper) + tail) == Err
  {
    hide FourDigits, Hex4;
    FourDigitsRead(hi, upper, tail);
  }

  /** UTF-8 (section 3 of RFC 3629): the bits of the code point, six in each byte but the first. */
  lemma Utf8Bytes(cp: nat)
    requires cp <= 0x10FFFF
    ensures cp < 128 ==> Encode(cp) == [cp]
    ensures 128 <= cp < 2048 ==> Encode(cp) == [192 + cp / 64, 128 + cp % 64]
    ensures 2048 <= cp < 65536 ==> Encode(cp) == [224 + cp / 4096, 128 + cp / 64 % 64, 128 + cp % 64]
    ensures 65536 <= cp ==>
      Encode(cp) == [240 + cp / 262144, 128 + cp / 4096 % 64, 128 + cp / 64 % 64, 128 + cp % 64]
  {
  }

  /** An escaped character of a text, from the escape to the decoded bytes. */
  lemma EscapedCharacter(cp: nat, upper: bool, tail: seq<byte>)
    requires cp < 0xD800 || 0xE000 <= cp < 0x10000
    ensures CharsAt([92, 117] + (FourDigits(cp, upper) + tail)) == Prepend(Encode(cp), CharsAt(tail))
  {
    hide CharsAt, CodePoint, Encode, Prepend, FourDigits;
    var s := FourDigits(cp, upper) + tail;
    AfterEscape(117, s);
    CharsStep([92, 117] + s);
    PlainCodePoint(cp, upper, tail);
  }

  // ---------------------------------------------------------------- numbers that are not integers

  predicate Digits10(s: seq<byte>) {
    forall i | 0 <= i < |s| :: 48 <= s[i] <= 57
  }

  predicate NoDigit(s: seq<byte>) {
    s == [] || !(48 <= s[0] <= 57)
  }

  lemma RunOfDigits(ds: seq<byte>, s: seq<byte>)
    requires Digits10(ds) && NoDigit(s)
    ensures DigitRun(ds + s) == |ds| && (ds + s)[..|ds|] == ds && (ds + s)[|ds|..] == s
  {
    DigitRunCat(ds, s);
  }

  /** A point needs a digit behind it. */
  lemma FractionText(fs: seq<byte>, s: seq<byte>)
    requires Digits10(fs) && NoDigit(s)
    ensures Fraction([46] + fs + s) == if fs == [] then Missing else Length(1 + |fs|)
    ensures s == [] || s[0] != 46 ==> Fraction(s) == Length(0)
  {
    hide DigitRun;
    RunOfDigits(fs, s);
    assert ([46] + fs + s)[1..] == fs + s;
  }

  /** So does an exponent, which may have a sign and is at most 308: `xs` are the digits, `s` is what follows. */
  lemma ExponentText(t: seq<byte>, sign: nat, xs: seq<byte>, s: seq<byte>)
    requires t != [] && (t[0] == 101 || t[0] == 69) && Digits10(xs) && NoDigit(s)
    requires sign <= 1 && 1 + sign <= |t| && t[1 + sign..] == xs + s
    requires sign == 1 <==> |t| > 1 && (t[1] == 43 || t[1] == 45)
    ensures Exponent(t) == if |xs| == 0 || Decimal(xs) > 308 then Missing else Length(1 + sign + |xs|)
  {
    hide DigitRun, Decimal, Exponent, Digits10, NoDigit;
    RunOfDigits(xs, s);
    ExponentUnfolds(t, sign, xs + s);
  }

  lemma NoExponent(s: seq<byte>)
    ensures s == [] || (s[0] != 101 && s[0] != 69) ==> Exponent(s) == Length(0)
  {
  }

  lemma ExponentUnfolds(t: seq<byte>, sign: nat, u: seq<byte>)
    requires t != [] && (t[0] == 101 || t[0] == 69) && sign <= 1 && 1 + sign <= |t| && t[1 + sign..] == u
    requires sign == 1 <==> Peek(t[1..]) == 43 || Peek(t[1..]) == 45
    ensures Exponent(t) == if DigitRun(u) == 0 || Decimal(u[..DigitRun(u)]) > 308 then Missing
                           else Length(1 + sign + DigitRun(u))
  {
    hide DigitRun, Decimal;
  }

  lemma ExponentSlices(e: byte, sign: seq<byte>, u: seq<byte>)
    requires |sign| <= 1
    ensures var t := [e] + sign + u;
      t[1..] == sign + u && t[1 + |sign|..] == u && (sign != [] ==> t[1..][0] == sign[0]) && (sign == [] ==> t[1..] == u)
  {
  }

  /** A number with a fraction or an exponent, or both, is its text; nothing behind it is touched. */
  lemma DoubleText(minus: bool, ds: seq<byte>, frac: seq<byte>, exp: seq<byte>, rest: seq<byte>)
    requires Literal(ds) && NoDigit(rest) && NoDigit(exp + rest) && NoDigit(frac + (exp + rest))
    requires frac + exp != [] && !TooBig(Decimal(ds))
    requires Fraction(frac + (exp + rest)) == Length(|frac|) && Exponent(exp + rest) == Length(|exp|)
    ensures var text := (if minus then [45] else []) + ds + frac + exp;
      NumberAt(text + rest) == Ok(Double(text), rest)
  {
    hide DigitRun, Decimal, Fraction, Exponent, TooBig;
    RunOfDigits(ds, frac + (exp + rest));
    var sign: seq<byte> := if minus then [45] else [];
    var text := sign + ds + frac + exp;
    var s := text + rest;
    NumberSlices(sign, ds, frac, exp, rest);
    assert Peek(s) == MINUS <==> minus;
    var a := |sign|;
    assert IntegerPart(s[a..]) == |ds|;
  }

  lemma NumberSlices(sign: seq<byte>, ds: seq<byte>, frac: seq<byte>, exp: seq<byte>, rest: seq<byte>)
    ensures var s := sign + ds + frac + exp + rest; var a, p := |sign|, |sign| + |ds|;
      && s[a..] == ds + (frac + (exp + rest)) && s[a..p] == ds && s[p..] == frac + (exp + rest)
      && s[p + |frac|..] == exp + rest && s[..p + |frac| + |exp|] == sign + ds + frac + exp
      && s[p + |frac| + |exp|..] == rest
  {
  }
}
