/** Bytes and the little-endian integers that packets carry. */
module Bytes {
  type byte = x: int | 0 <= x < 256

  /** The `k` low bytes of `n`, lowest first, as an integer of `k` bytes lies in memory. */
  function LittleEndian(n: nat, k: nat): (s: seq<byte>)
    ensures |s| == k
  {
    if k == 0 then [] else [n % 256] + LittleEndian(n / 256, k - 1)
  }

  function FromLittleEndian(s: seq<byte>): nat {
    if s == [] then 0 else s[0] + 256 * FromLittleEndian(s[1..])
  }

  function Power256(k: nat): (p: nat)
    ensures p > 0
  {
    if k == 0 then 1 else 256 * Power256(k - 1)
  }

  /** Reading back `k` bytes gives the number modulo 256^k: the number itself when it fits. */
  lemma {:induction false} LittleEndianRoundTrip(n: nat, k: nat)
    ensures FromLittleEndian(LittleEndian(n, k)) == n % Power256(k)
    decreases k
  {
    if k > 0 {
      LittleEndianRoundTrip(n / 256, k - 1);
      ModSplits(n, Power256(k - 1));
    }
  }

  /** The byte at place `i` is the digit of 256^i: the lowest one comes first. */
  lemma {:induction false} ByteAt(n: nat, k: nat, i: nat)
    requires i < k
    ensures LittleEndian(n, k)[i] == n / Power256(i) % 256
    decreases i
  {
    if i > 0 {
      ByteAt(n / 256, k - 1, i - 1);
      DivideTwice(n, Power256(i - 1));
    }
  }

  lemma DivideTwice(n: nat, p: nat)
    requires p > 0
    ensures n / (256 * p) == n / 256 / p
  {
    var q, r := n / 256, n % 256;
    var a, b := q / p, q % p;
    assert n == 256 * (a * p + b) + r == a * (256 * p) + (256 * b + r) by {
      assert q == a * p + b;
    }
    QuotientUnique(n, 256 * p, a, 256 * b + r);
  }

  lemma QuotientUnique(n: nat, d: nat, q: nat, r: nat)
    requires d > 0 && r < d && n == q * d + r
    ensures n / d == q
  {
    assert n == (n / d) * d + n % d;
    MultipleInRange(n / d - q, d);
  }

  lemma SmallPowers()
    ensures Power256(0) == 1 && Power256(1) == 256 && Power256(2) == 65536
    ensures Power256(3) == 16777216 && Power256(4) == 4294967296
  {
    assert Power256(3) == 256 * Power256(2);
  }

  /** The number whose lowest byte is `a`, and so on. */
  function Number(a: int, b: int, c: int, d: int): int {
    a + 256 * b + 65536 * c + 16777216 * d
  }

  /** The integers of two, three and four bytes. */
  lemma Assembled(a: byte, b: byte, c: byte, d: byte)
    ensures FromLittleEndian([a]) == a && FromLittleEndian([a, b]) == Number(a, b, 0, 0)
    ensures FromLittleEndian([a, b, c]) == Number(a, b, c, 0)
    ensures FromLittleEndian([a, b, c, d]) == Number(a, b, c, d)
  {
    assert [d][1..] == [];
    assert FromLittleEndian([d]) == d;
    assert [c, d][1..] == [d] && [b, c, d][1..] == [c, d] && [a, b, c, d][1..] == [b, c, d];
    assert [c][1..] == [] && [b, c][1..] == [c] && [a, b, c][1..] == [b, c];
    assert [b][1..] == [] && [a, b][1..] == [b] && [a][1..] == [];
    assert FromLittleEndian([c, d]) == c + 256 * d && FromLittleEndian([b, c]) == b + 256 * FromLittleEndian([c]);
    assert FromLittleEndian([b, c, d]) == b + 256 * (c + 256 * d);
  }

  lemma AssembledFrom(s: seq<byte>)
    ensures |s| == 2 ==> FromLittleEndian(s) == Number(s[0], s[1], 0, 0)
    ensures |s| == 3 ==> FromLittleEndian(s) == Number(s[0], s[1], s[2], 0)
    ensures |s| == 4 ==> FromLittleEndian(s) == Number(s[0], s[1], s[2], s[3])
  {
    hide FromLittleEndian;
    if |s| == 2 {
      assert s == [s[0], s[1]];
      Assembled(s[0], s[1], 0, 0);
    } else if |s| == 3 {
      assert s == [s[0], s[1], s[2]];
      Assembled(s[0], s[1], s[2], 0);
    } else if |s| == 4 {
      assert s == [s[0], s[1], s[2], s[3]];
      Assembled(s[0], s[1], s[2], s[3]);
    }
  }

  /** The bytes of such integers. */
  lemma TakenApart(n: nat)
    ensures LittleEndian(n, 1) == [n % 256] && LittleEndian(n, 2) == [n % 256, n / 256 % 256]
    ensures LittleEndian(n, 3) == [n % 256, n / 256 % 256, n / 65536 % 256]
    ensures LittleEndian(n, 4) == [n % 256, n / 256 % 256, n / 65536 % 256, n / 16777216 % 256]
  {
    hide LittleEndian, Power256;
    SmallPowers();
    forall k, i: nat | 0 <= i < k <= 4
      ensures LittleEndian(n, k)[i] == n / Power256(i) % 256
    {
      ByteAt(n, k, i);
    }
  }

  lemma ModSplits(n: nat, p: nat)
    requires p > 0
    ensures n % (256 * p) == n % 256 + 256 * (n / 256 % p)
  {
    var q, r := n / 256, n % 256;
    var a, b := q / p, q % p;
    assert n == 256 * (a * p + b) + r == a * (256 * p) + (256 * b + r) by {
      assert q == a * p + b;
    }
    DivideUnique(n, 256 * p, a, 256 * b + r);
  }

  lemma DivideUnique(n: nat, d: nat, q: nat, r: nat)
    requires d > 0 && r < d && n == q * d + r
    ensures n % d == r
  {
    assert n == (n / d) * d + n % d;
    MultipleInRange(n / d - q, d);
  }

  lemma MultipleInRange(k: int, d: int)
    requires d > 0
    ensures -d < k * d < d ==> k == 0
  {
    if k >= 1 {
      assert (k - 1) * d >= 0;
    }
    if k <= -1 {
      assert (-k - 1) * d >= 0;
    }
  }

  lemma {:induction false} FromLittleEndianBound(s: seq<byte>)
    ensures FromLittleEndian(s) < Power256(|s|)
  {
    if s != [] {
      FromLittleEndianBound(s[1..]);
    }
  }

  /** The inverse direction: the bytes are determined by the number. */
  lemma {:induction false} LittleEndianOfBytes(s: seq<byte>)
    ensures LittleEndian(FromLittleEndian(s), |s|) == s
  {
    if s != [] {
      LittleEndianOfBytes(s[1..]);
      assert FromLittleEndian(s) % 256 == s[0] && FromLittleEndian(s) / 256 == FromLittleEndian(s[1..]);
      assert s == [s[0]] + s[1..];
    }
  }
}
