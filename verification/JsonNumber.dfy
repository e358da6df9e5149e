/** Integers in JSON text: printing through digit buffers, and reading with an exact choice of the integer type. */
module JsonNumber {
  import opened Bytes

  const ZERO: byte := 48
  const MINUS: byte := 45
  const DOT: byte := 46
  const UINT32: nat := 0x1_0000_0000
  const UINT64: nat := 0x1_0000_0000_0000_0000

  predicate IsDigit(c: byte) {
    48 <= c <= 57
  }

  /** The decimal digits of a number, without leading zeros. */
  function Digits(n: nat): (ds: seq<byte>)
    ensures ds != [] && forall i | 0 <= i < |ds| :: IsDigit(ds[i])
    ensures ds[0] == ZERO <==> n == 0
    ensures n == 0 ==> |ds| == 1
  {
    if n < 10 then [ZERO + n] else Digits(n / 10) + [ZERO + n % 10]
  }

  function DigitValue(c: byte): nat
    requires IsDigit(c)
  {
    c - ZERO
  }

  function Decimal(ds: seq<byte>): nat
    requires forall i | 0 <= i < |ds| :: IsDigit(ds[i])
  {
    if ds == [] then 0 else Decimal(ds[..|ds| - 1]) * 10 + DigitValue(ds[|ds| - 1])
  }

  lemma {:induction false} DecimalOfDigits(n: nat)
    ensures Decimal(Digits(n)) == n
    decreases n
  {
    if n < 10 {
      assert [ZERO + n][..0] == [];
    } else {
      DecimalOfDigits(n / 10);
      assert Digits(n)[..|Digits(n)| - 1] == Digits(n / 10);
    }
  }

  function Power10(k: nat): (p: nat)
    ensures p > 0
  {
    if k == 0 then 1 else 10 * Power10(k - 1)
  }

  lemma Buffers()
    ensures UINT32 <= Power10(10) && UINT64 <= Power10(20)
  {
    var p4 := Power10(4);
    assert p4 == 10000;
    assert Power10(8) == 10000 * p4;
    assert Power10(12) == 10000 * Power10(8);
    assert Power10(16) == 10000 * Power10(12);
    assert Power10(20) == 10000 * Power10(16);
    assert Power10(10) == 100 * Power10(8);
  }

  function Reversed(s: seq<byte>): (r: seq<byte>)
    ensures |r| == |s|
  {
    if s == [] then [] else Reversed(s[1..]) + [s[0]]
  }

  lemma {:induction false} ReversedSnoc(s: seq<byte>, c: byte)
    ensures Reversed(s + [c]) == [c] + Reversed(s)
    decreases |s|
  {
    if s == [] {
      assert s + [c] == [c] && [c][1..] == [];
    } else {
      assert (s + [c])[1..] == s[1..] + [c];
      ReversedSnoc(s[1..], c);
    }
  }

  /** WriteUint and WriteUint64: the digits go into a buffer of `size` bytes, lowest first, and out in reverse. */
  method WriteUnsigned(u: nat, size: nat) returns (out: seq<byte>)
    requires size > 0 && u < Power10(size)
    ensures out == Digits(u)
  {
    hide Digits, Reversed, Power10;
    var buffer := new byte[size];
    var p, v := 0, u;
    NothingReversed(u);
    assert buffer[..0] == [];
    while true
      invariant 0 <= p < size && 0 <= v < Power10(size - p)
      invariant Digits(u) == Digits(v) + Reversed(buffer[..p])
      decreases v
    {
      ghost var before := buffer[..p];
      DigitTaken(v, size - p, before);
      buffer[p] := v % 10 + ZERO;
      p := p + 1;
      assert buffer[..p] == before + [buffer[p - 1]];
      v := v / 10;
      if v == 0 {
        break;
      }
    }
    out := [];
    while p > 0
      invariant p <= size && Digits(u) == out + Reversed(buffer[..p])
    {
      p := p - 1;
      assert buffer[..p + 1] == buffer[..p] + [buffer[p]];
      ReversedSnoc(buffer[..p], buffer[p]);
      out := out + [buffer[p]];
    }
    assert buffer[..0] == [];
    NothingReversed(u);
  }

  lemma NothingReversed(u: nat)
    ensures Reversed([]) == [] && Digits(u) == Digits(u) + Reversed([])
  {
  }

  /** The lowest digit moves from the number to the end of the buffer. */
  lemma DigitTaken(v: nat, room: nat, before: seq<byte>)
    requires room > 0 && v < Power10(room)
    ensures v < 10 ==> Digits(v) + Reversed(before) == Reversed(before + [v % 10 + ZERO])
    ensures v >= 10 ==> Digits(v) + Reversed(before) == Digits(v / 10) + Reversed(before + [v % 10 + ZERO])
    ensures v / 10 < Power10(room - 1) && (v >= 10 ==> room > 1)
  {
    hide Reversed;
    ReversedSnoc(before, v % 10 + ZERO);
  }

  /** The text of an integer. */
  function Printed(i: int): seq<byte> {
    if i < 0 then [MINUS] + Digits(-i) else Digits(i)
  }

  /** WriteInt and WriteInt64: the negation wraps around for the smallest number, and the cast undoes that. */
  method WriteSigned(i: int, modulus: nat, size: nat) returns (out: seq<byte>)
    requires (modulus == UINT32 && size == 10) || (modulus == UINT64 && size == 20)
    requires -(modulus as int) <= 2 * i < modulus
    ensures out == Printed(i)
  {
    Buffers();
    out := [];
    var u: nat;
    if i < 0 {
      out := [MINUS];
      var negated := if -i == modulus / 2 then i else -i;
      u := negated % modulus;
      NegatedWraps(i, modulus);
    } else {
      u := i;
    }
    var digits := WriteUnsigned(u, size);
    out := out + digits;
  }

  lemma NegatedWraps(i: int, modulus: nat)
    requires modulus == UINT32 || modulus == UINT64
    requires i < 0 && -(modulus as int) <= 2 * i
    ensures (if -i == modulus / 2 then i else -i) % modulus == -i
  {
  }

  // ---------------------------------------------------------------- reading

  /** A parsed number; one that is not an integer, or is too big for one, keeps its text. */
  datatype Number = Int(i: int) | Uint(u: nat) | Int64(i: int) | Uint64(u: nat) | Double(text: seq<byte>)

  datatype Result<+T> = Ok(value: T, rest: seq<byte>) | Err

  /** The stream's current byte; a byte 0 ends the text. */
  function Peek(s: seq<byte>): byte {
    if s == [] then 0 else s[0]
  }

  /** How many digits the text begins with. */
  function DigitRun(s: seq<byte>): (n: nat)
    ensures n <= |s| && (forall i | 0 <= i < n :: IsDigit(s[i])) && (n < |s| ==> !IsDigit(s[n]))
  {
    if s == [] || !IsDigit(s[0]) then 0 else 1 + DigitRun(s[1..])
  }

  /** The integer part: a single 0, or all digits. */
  function IntegerPart(s: seq<byte>): (n: nat)
    ensures n <= |s| && forall i | 0 <= i < n :: IsDigit(s[i])
  {
    if Peek(s) == ZERO then 1 else DigitRun(s)
  }

  /** Length of the fraction with its point; `None` when there is no digit after the point. */
  datatype Length = Length(n: nat) | Missing

  function Fraction(s: seq<byte>): (l: Length)
    ensures l.Length? ==> l.n <= |s|
  {
    if Peek(s) != DOT then Length(0)
    else if DigitRun(s[1..]) == 0 then Missing
    else Length(1 + DigitRun(s[1..]))
  }

  /** The same for the exponent, which must not exceed 308. */
  function Exponent(s: seq<byte>): (l: Length)
    ensures l.Length? ==> l.n <= |s|
  {
    if Peek(s) != 101 && Peek(s) != 69 then Length(0)
    else
      var sign := if Peek(s[1..]) == 43 || Peek(s[1..]) == MINUS then 1 else 0;
      var t := s[1 + sign..];
      if DigitRun(t) == 0 || Decimal(t[..DigitRun(t)]) > 308 then Missing else Length(1 + sign + DigitRun(t))
  }

  /** The integer type for a sign and a magnitude: the first one that has the value. */
  function Typed(minus: bool, v: nat, text: seq<byte>): Number {
    if minus then
      var i: int := v;
      if v <= 0x8000_0000 then Int(-i) else if v <= 0x8000_0000_0000_0000 then Int64(-i) else Double(text)
    else
      if v < UINT32 then Uint(v) else if v < UINT64 then Uint64(v) else Double(text)
  }

  /** Too many digits for a floating-point number: the next to last digit already leads to 10^307 or more. */
  predicate TooBig(v: nat) {
    v >= 10 * Power10(307)
  }

  function NumberAt(s: seq<byte>): (r: Result<Number>)
    ensures r.Ok? ==> |r.rest| < |s|
  {
    var minus := Peek(s) == MINUS;
    var a := if minus then 1 else 0;
    var p := a + IntegerPart(s[a..]);
    if p == a || TooBig(Decimal(s[a..p])) then Err
    else
      match Fraction(s[p..])
      case Missing => Err
      case Length(f) =>
        var b := p + f;
        match Exponent(s[b..])
        case Missing => Err
        case Length(e) =>
          var c := b + e;
          IntegerDigits(s, a);
          Ok(if c > p then Double(s[..c]) else Typed(minus, Decimal(s[a..p]), s[..c]), s[c..])
  }

  lemma IntegerDigits(s: seq<byte>, a: nat)
    requires a <= |s|
    ensures forall k | a <= k < a + IntegerPart(s[a..]) :: IsDigit(s[k])
  {
    assert forall k | a <= k < a + IntegerPart(s[a..]) :: s[k] == s[a..][k - a];
  }

  /** What may follow a number that is not to be continued. */
  predicate EndsNumber(s: seq<byte>) {
    s == [] || !(IsDigit(s[0]) || s[0] == DOT || s[0] == 101 || s[0] == 69)
  }

  predicate InRange(i: int) {
    -0x8000_0000_0000_0000 <= i < UINT64
  }

  function ValueOf(n: Number): int
    requires !n.Double?
  {
    match n
    case Int(i) => i
    case Uint(u) => u
    case Int64(i) => i
    case Uint64(u) => u
  }

  lemma {:induction false} DigitRunCat(ds: seq<byte>, s: seq<byte>)
    requires (forall i | 0 <= i < |ds| :: IsDigit(ds[i])) && (s == [] || !IsDigit(s[0]))
    ensures DigitRun(ds + s) == |ds|
    decreases |ds|
  {
    if ds == [] {
      assert ds + s == s;
    } else {
      assert (ds + s)[1..] == ds[1..] + s;
      DigitRunCat(ds[1..], s);
    }
  }

  /** An integer literal: one digit, or digits that do not begin with 0. */
  predicate Literal(ds: seq<byte>) {
    ds != [] && (forall i | 0 <= i < |ds| :: IsDigit(ds[i])) && (ds[0] == ZERO ==> |ds| == 1)
  }

  lemma LiteralAt(ds: seq<byte>, rest: seq<byte>)
    requires Literal(ds) && EndsNumber(rest)
    ensures var s := ds + rest;
      Peek(s) != MINUS && IntegerPart(s) == |ds| && s[..|ds|] == ds && s[|ds|..] == rest
    ensures Fraction(rest) == Length(0) && Exponent(rest) == Length(0)
  {
    DigitRunCat(ds, rest);
  }

  /** Which type an integer literal gets: the smallest one for its sign that has its value, and exactly that value;
      a literal beyond all of them becomes a floating-point number. Nothing behind it is touched. */
  lemma IntegerTypes(minus: bool, ds: seq<byte>, rest: seq<byte>)
    requires Literal(ds) && EndsNumber(rest)
    ensures var v := Decimal(ds); var r := NumberAt((if minus then [MINUS] else []) + ds + rest);
      && (r.Ok? <==> !TooBig(v))
      && (r.Ok? ==>
            && r.rest == rest
            && (r.value.Uint? <==> !minus && v < 4294967296)
            && (r.value.Uint64? <==> !minus && 4294967296 <= v < 18446744073709551616)
            && (r.value.Int? <==> minus && v <= 2147483648)
            && (r.value.Int64? <==> minus && 2147483648 < v <= 9223372036854775808)
            && (!r.value.Double? ==> ValueOf(r.value) == SignedValue(minus, v)))
  {
    hide Decimal, DigitRun, IntegerPart, Fraction, Exponent, TooBig;
    LiteralAt(ds, rest);
    var a := if minus then 1 else 0;
    var s := (if minus then [MINUS] else []) + ds + rest;
    assert s[a..] == ds + rest && s[a..a + |ds|] == ds && s[a + |ds|..] == rest;
  }

  function SignedValue(minus: bool, v: int): int {
    if minus then -v else v
  }

  lemma {:induction false} PowersGrow(k: nat, n: nat)
    requires k <= n
    ensures Power10(k) <= Power10(n)
    decreases n
  {
    if k < n {
      PowersGrow(k, n - 1);
    }
  }

  lemma IntegersAreSmall(v: nat)
    requires v < UINT64
    ensures !TooBig(v)
  {
    hide Power10;
    Buffers();
    PowersGrow(20, 307);
  }

  /** Every 64-bit integer, signed or unsigned, is read back with its value, and nothing behind it is touched. */
  lemma NumberRoundTrip(i: int, rest: seq<byte>)
    requires InRange(i) && EndsNumber(rest)
    ensures var r := NumberAt(Printed(i) + rest);
      r.Ok? && r.rest == rest && !r.value.Double? && ValueOf(r.value) == i
  {
    hide Digits, Decimal, NumberAt, Typed, TooBig;
    var v := if i < 0 then -i else i;
    IntegersAreSmall(v);
    DecimalOfDigits(v);
    assert [] + Digits(v) + rest == Digits(v) + rest;
    IntegerTypes(i < 0, Digits(v), rest);
  }

  // ---------------------------------------------------------------- the loops of ParseNumber

  /** The digit loop for one integer type, whose largest magnitude is `10 * limit + last`: it stops before the digit that
      would not fit. */
  method Accumulate(text: seq<byte>, a: nat, from: nat, start: nat, limit: nat, last: byte)
    returns (v: nat, p: nat, over: bool)
    requires a < from <= |text| && (forall i | a <= i < from :: IsDigit(text[i])) && IsDigit(last)
    requires start == Decimal(text[a..from]) && start <= 10 * limit + DigitValue(last)
    ensures from <= p <= |text| && (forall i | a <= i < p :: IsDigit(text[i])) && v == Decimal(text[a..p])
    ensures v <= 10 * limit + DigitValue(last)
    ensures if over then p < |text| && IsDigit(text[p]) && Decimal(text[a..p + 1]) > 10 * limit + DigitValue(last)
            else p == a + DigitRun(text[a..])
  {
    hide Decimal;
    v, p, over := start, from, false;
    while IsDigit(Peek(text[p..]))
      invariant from <= p <= |text| && (forall i | a <= i < p :: IsDigit(text[i])) && v == Decimal(text[a..p])
      invariant v <= 10 * limit + DigitValue(last)
      decreases |text| - p
    {
      DecimalStep(text, a, p);
      if v >= limit {
        if v != limit || text[p] > last {
          over := true;
          return;
        }
      }
      v := v * 10 + DigitValue(text[p]);
      p := p + 1;
    }
    RunIs(text, a, p);
  }

  lemma DecimalStep(text: seq<byte>, a: nat, p: nat)
    requires a <= p < |text| && forall i | a <= i <= p :: IsDigit(text[i])
    ensures Decimal(text[a..p + 1]) == Decimal(text[a..p]) * 10 + DigitValue(text[p])
  {
    assert text[a..p + 1][..p - a] == text[a..p];
  }

  lemma RunIs(text: seq<byte>, a: nat, p: nat)
    requires a <= p <= |text| && (forall i | a <= i < p :: IsDigit(text[i])) && !IsDigit(Peek(text[p..]))
    ensures DigitRun(text[a..]) == p - a
  {
    assert text[a..] == text[a..p] + text[p..];
    DigitRunCat(text[a..p], text[p..]);
  }

  method SkipDigits(text: seq<byte>, from: nat) returns (p: nat)
    requires from <= |text|
    ensures p == from + DigitRun(text[from..])
  {
    p := from;
    while IsDigit(Peek(text[p..]))
      invariant from <= p <= |text| && forall i | from <= i < p :: IsDigit(text[i])
      decreases |text| - p
    {
      p := p + 1;
    }
    RunIs(text, from, p);
  }

  /** More digits make a number no smaller. */
  lemma {:induction false} DecimalGrows(ds: seq<byte>, k: nat)
    requires k <= |ds| && forall i | 0 <= i < |ds| :: IsDigit(ds[i])
    ensures Decimal(ds[..k]) <= Decimal(ds)
    decreases |ds|
  {
    if k == |ds| {
      assert ds[..k] == ds;
    } else {
      DecimalGrows(ds[..|ds| - 1], k);
      assert ds[..|ds| - 1][..k] == ds[..k];
    }
  }

  /** The largest magnitudes of the integer types. */
  function Max32(minus: bool): nat {
    if minus then 0x8000_0000 else UINT32 - 1
  }

  function Max64(minus: bool): nat {
    if minus then 0x8000_0000_0000_0000 else UINT64 - 1
  }

  /** The integer part: its end, its number in 32 or 64 bits, and whether it needs the 64 bits or more. */
  method ParseInteger(text: seq<byte>, a: nat, minus: bool)
    returns (p: nat, i: nat, try64bit: bool, i64: nat, useDouble: bool, ok: bool)
    requires a <= |text| && IntegerPart(text[a..]) > 0
    ensures var end := a + IntegerPart(text[a..]);
      && end <= |text| && (forall k | a <= k < end :: IsDigit(text[k]))
      && (ok <==> !TooBig(Decimal(text[a..end]))) && (ok ==> p == end)
    ensures ok ==> var v := Decimal(text[a..p]);
      if useDouble then try64bit && v > Max64(minus)
      else if try64bit then i64 == v && Max32(minus) < v <= Max64(minus)
      else i == v <= Max32(minus)
  {
    hide Decimal, DigitRun, IntegerPart, TooBig;
    FirstDigit(text, a);
    i64, try64bit, useDouble, ok, p := 0, false, false, true, a + 1;
    i := DigitValue(text[a]);
    IntegersAreSmall(i);
    if text[a] == ZERO {
      return;
    }
    if minus {
      i, p, try64bit := Accumulate(text, a, p, i, 214748364, 56);
    } else {
      i, p, try64bit := Accumulate(text, a, p, i, 429496729, 53);
    }
    if try64bit {
      i64, p, useDouble, ok := ParseInteger64(text, a, p, i, minus);
    } else {
      IntegersAreSmall(i);
    }
  }

  /** Goes on in 64 bits after `i`, and past all digits when those are not enough either. */
  method ParseInteger64(text: seq<byte>, a: nat, from: nat, i: nat, minus: bool)
    returns (i64: nat, p: nat, useDouble: bool, ok: bool)
    requires a < from < |text| && (forall k | a <= k <= from :: IsDigit(text[k]))
    requires i == Decimal(text[a..from]) <= Max32(minus) < Decimal(text[a..from + 1])
    ensures ok ==> p == a + DigitRun(text[a..])
    ensures var end := a + DigitRun(text[a..]);
      && end <= |text| && (forall k | a <= k < end :: IsDigit(text[k]))
      && (ok <==> !TooBig(Decimal(text[a..end])))
    ensures ok ==> var v := Decimal(text[a..p]);
      v > Max32(minus) && if useDouble then v > Max64(minus) else i64 == v <= Max64(minus)
  {
    hide Decimal, DigitRun, IntegerPart, TooBig;
    ok := true;
    if minus {
      i64, p, useDouble := Accumulate(text, a, from, i, 922337203685477580, 56);
    } else {
      i64, p, useDouble := Accumulate(text, a, from, i, 1844674407370955161, 53);
    }
    ghost var end := a + DigitRun(text[a..]);
    Beyond(text, a, from + 1, end);
    if useDouble {
      Beyond(text, a, p + 1, end);
      ok, p := ParseDouble(text, a, p, i64);
    } else {
      IntegersAreSmall(i64);
    }
  }

  /** The digits of a number that is too big for every integer type; `d` is the number so far. */
  method ParseDouble(text: seq<byte>, a: nat, from: nat, i64: nat) returns (ok: bool, p: nat)
    requires a < from < |text| && (forall k | a <= k <= from :: IsDigit(text[k])) && i64 == Decimal(text[a..from])
    ensures ok ==> p == a + DigitRun(text[a..])
    ensures ok <==> !TooBig(Decimal(text[a..a + DigitRun(text[a..])]))
  {
    hide Decimal, DigitRun, Power10;
    var d := i64;
    p := from;
    ghost var end := a + DigitRun(text[a..]);
    Beyond(text, a, from + 1, end);
    while IsDigit(Peek(text[p..]))
      invariant from <= p <= |text| && (forall k | a <= k < p :: IsDigit(text[k])) && d == Decimal(text[a..p])
      invariant p == from || d < 10 * Power10(307)
      decreases |text| - p
    {
      DecimalStep(text, a, p);
      if d >= Power10(307) {
        Beyond(text, a, p + 1, end);
        return false, p;
      }
      d := d * 10 + DigitValue(text[p]);
      p := p + 1;
    }
    RunIs(text, a, p);
    ok := true;
  }

  lemma RunContinues(text: seq<byte>, a: nat, p: nat)
    requires a <= p <= |text| && forall i | a <= i < p :: IsDigit(text[i])
    ensures DigitRun(text[a..]) == p - a + DigitRun(text[p..])
  {
    var q := p + DigitRun(text[p..]);
    assert forall i | p <= i < q :: text[p..][i - p] == text[i];
    assert text[q..] == text[p..][q - p..];
    RunIs(text, a, q);
  }

  lemma Beyond(text: seq<byte>, a: nat, k: nat, end: nat)
    requires a <= k <= |text| && (forall i | a <= i < k :: IsDigit(text[i]))
    requires a <= |text| && end == a + DigitRun(text[a..])
    ensures k <= end <= |text| && (forall i | a <= i < end :: IsDigit(text[i]))
    ensures Decimal(text[a..k]) <= Decimal(text[a..end])
  {
    RunContinues(text, a, k);
    assert forall i | a <= i < end :: text[a..][i - a] == text[i];
    assert text[a..end][..k - a] == text[a..k];
    DecimalGrows(text[a..end], k - a);
  }

  lemma FirstDigit(text: seq<byte>, a: nat)
    requires a <= |text| && IntegerPart(text[a..]) > 0
    ensures a < |text| && IsDigit(text[a]) && Decimal(text[a..a + 1]) == DigitValue(text[a])
    ensures IntegerPart(text[a..]) == if text[a] == ZERO then 1 else DigitRun(text[a..])
  {
    DecimalStep(text, a, a);
    assert text[a..a] == [];
  }

  /** The fraction, or an error. */
  method ParseFraction(text: seq<byte>, from: nat) returns (ok: bool, p: nat)
    requires from <= |text|
    ensures from <= p <= |text|
    ensures match Fraction(text[from..])
      case Missing => !ok
      case Length(n) => ok && p == from + n
  {
    p := from;
    if Peek(text[p..]) == DOT {
      p := p + 1;
      assert text[from..][1..] == text[p..];
      if !IsDigit(Peek(text[p..])) {
        return false, p;
      }
      p := SkipDigits(text, p);
    }
    ok := true;
  }

  /** The digits of an exponent: counted one by one and given up beyond 308. */
  method ParseExponentDigits(text: seq<byte>, a: nat) returns (ok: bool, p: nat)
    requires a <= |text|
    ensures a <= p <= |text|
    ensures var n := DigitRun(text[a..]);
      if n == 0 || Decimal(text[a..][..n]) > 308 then !ok else ok && p == a + n
  {
    hide Decimal;
    p := a;
    if !IsDigit(Peek(text[p..])) {
      return false, p;
    }
    FirstDigitValue(text, p);
    var exp := DigitValue(text[p]);
    p := p + 1;
    while IsDigit(Peek(text[p..]))
      invariant a < p <= |text| && (forall i | a <= i < p :: IsDigit(text[i])) && exp == Decimal(text[a..p]) <= 308
      decreases |text| - p
    {
      DecimalStep(text, a, p);
      exp := exp * 10 + DigitValue(text[p]);
      p := p + 1;
      if exp > 308 {
        ghost var end := a + DigitRun(text[a..]);
        Beyond(text, a, p, end);
        assert text[a..][..end - a] == text[a..end];
        return false, p;
      }
    }
    RunIs(text, a, p);
    assert text[a..][..p - a] == text[a..p];
    ok := true;
  }

  /** The exponent, or an error. */
  method ParseExponent(text: seq<byte>, from: nat) returns (ok: bool, p: nat)
    requires from <= |text|
    ensures from <= p <= |text|
    ensures match Exponent(text[from..])
      case Missing => !ok
      case Length(n) => ok && p == from + n
  {
    hide Decimal, DigitRun;
    p := from;
    if Peek(text[p..]) == 101 || Peek(text[p..]) == 69 {
      p := p + 1;
      assert text[from..][1..] == text[p..];
      if Peek(text[p..]) == 43 || Peek(text[p..]) == MINUS {
        p := p + 1;
      }
      assert text[from..][p - from..] == text[p..];
      ok, p := ParseExponentDigits(text, p);
      return;
    }
    ok := true;
  }

  lemma FirstDigitValue(text: seq<byte>, a: nat)
    requires a < |text| && IsDigit(text[a])
    ensures Decimal(text[a..a + 1]) == DigitValue(text[a])
  {
    DecimalStep(text, a, a);
    assert text[a..a] == [];
  }

  /** ParseNumber, on its own copy of the stream. */
  method ParseNumber(s: seq<byte>) returns (r: Result<Number>)
    ensures r == NumberAt(s)
  {
    hide Decimal, DigitRun, IntegerPart, Fraction, Exponent, NumberAt, TooBig;
    var minus := Peek(s) == MINUS;
    var a := if minus then 1 else 0;
    WithoutInteger(s);
    if !IsDigit(Peek(s[a..])) {
      return Err;
    }
    var p, i, try64bit, i64, useDouble, ok := ParseInteger(s, a, minus);
    if !ok {
      NothingTooBig(s, a);
      return Err;
    }
    WithoutFraction(s, a, p);
    var b;
    ok, b := ParseFraction(s, p);
    if !ok {
      return Err;
    }
    WithoutExponent(s, a, p, b);
    var c;
    ok, c := ParseExponent(s, b);
    if !ok {
      return Err;
    }
    NumberParts(s, a, p, b, c);
    var number := if useDouble || c > p then Double(s[..c])
                  else if try64bit then (if minus then Int64(-(i64 as int)) else Uint64(i64))
                  else if minus then Int(-(i as int)) else Uint(i);
    r := Ok(number, s[c..]);
  }

  lemma WithoutInteger(s: seq<byte>)
    ensures var a := if Peek(s) == MINUS then 1 else 0;
      a <= |s| && (IntegerPart(s[a..]) > 0 <==> IsDigit(Peek(s[a..]))) && (!IsDigit(Peek(s[a..])) ==> NumberAt(s) == Err)
  {
    hide Decimal, Fraction, Exponent, TooBig;
  }

  lemma NothingTooBig(s: seq<byte>, a: nat)
    requires a == (if Peek(s) == MINUS then 1 else 0) && a <= |s| && TooBig(Decimal(s[a..a + IntegerPart(s[a..])]))
    ensures NumberAt(s) == Err
  {
    hide Decimal, Fraction, Exponent, IntegerPart, TooBig;
  }

  lemma WithoutFraction(s: seq<byte>, a: nat, p: nat)
    requires a == (if Peek(s) == MINUS then 1 else 0) && a < p <= |s| && p == a + IntegerPart(s[a..])
    ensures Fraction(s[p..]).Missing? ==> NumberAt(s) == Err
  {
    hide Decimal, Fraction, Exponent, IntegerPart, TooBig;
  }

  lemma WithoutExponent(s: seq<byte>, a: nat, p: nat, b: nat)
    requires a == (if Peek(s) == MINUS then 1 else 0) && a < p <= b <= |s| && p == a + IntegerPart(s[a..])
    requires Fraction(s[p..]) == Length(b - p)
    ensures Exponent(s[b..]).Missing? ==> NumberAt(s) == Err
  {
    hide Decimal, Fraction, Exponent, IntegerPart, TooBig;
  }

  lemma NumberParts(s: seq<byte>, a: nat, p: nat, b: nat, c: nat)
    requires a == (if Peek(s) == MINUS then 1 else 0) && a < p <= b <= c <= |s| && p == a + IntegerPart(s[a..])
    requires Fraction(s[p..]) == Length(b - p) && Exponent(s[b..]) == Length(c - b)
    requires (forall k | a <= k < p :: IsDigit(s[k])) && !TooBig(Decimal(s[a..p]))
    ensures NumberAt(s)
         == Ok(if c > p then Double(s[..c]) else Typed(Peek(s) == MINUS, Decimal(s[a..p]), s[..c]), s[c..])
  {
    hide Decimal, Fraction, Exponent, IntegerPart, Typed, TooBig;
  }
}
