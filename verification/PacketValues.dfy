/** Typed values in packets: what is written is what is read back, whatever the chunk size. */
module PacketValues {
  import opened Bytes
  import opened Memory
  import opened Windows
  import opened Cursor
  import opened PacketReader
  import opened PacketWriter

  datatype Kind = BooleanKind | UnsignedKind(width: nat) | SignedKind(width: nat) | TextKind

  datatype Value = Boolean(b: bool) | Unsigned(width: nat, n: nat) | Signed(width: nat, i: int) | Text(s: seq<byte>) {
    function Kind(): Kind {
      match this
      case Boolean(_) => BooleanKind
      case Unsigned(width, _) => UnsignedKind(width)
      case Signed(width, _) => SignedKind(width)
      case Text(_) => TextKind
    }

    /** The value is one of its type; a text's length must fit into two bytes. */
    predicate Fits() {
      match this
      case Boolean(_) => true
      case Unsigned(width, n) => n < Power256(width)
      case Signed(width, i) => InSignedRange(i, Power256(width))
      case Text(s) => |s| < 0x10000
    }
  }

  predicate InSignedRange(i: int, m: int) {
    -m <= 2 * i < m
  }

  /** The bytes of a value in memory; integers are little-endian, negative ones in two's complement. */
  function Encoding(v: Value): seq<byte> {
    match v
    case Boolean(b) => [if b then 1 else 0]
    case Unsigned(width, n) => LittleEndian(n, width)
    case Signed(width, i) => LittleEndian(i % Power256(width), width)
    case Text(s) => LittleEndian(|s|, 2) + s
  }

  function Encodings(vs: seq<Value>): seq<byte> {
    if vs == [] then [] else Encoding(vs[0]) + Encodings(vs[1..])
  }

  function ToSigned(n: nat, width: nat): int {
    if 2 * n < Power256(width) then n else n - Power256(width)
  }

  /** The value at position `p` of the bytes `all`, and the position after it. */
  function ValueAt(kind: Kind, all: seq<byte>, p: nat): Read<(Value, nat)>
    requires p <= |all|
  {
    match kind
    case BooleanKind =>
      if p + 1 > |all| then NoMoreData else Got((Boolean(all[p] == 1), p + 1))
    case UnsignedKind(width) =>
      if p + width > |all| then NoMoreData
      else Got((Unsigned(width, FromLittleEndian(all[p..p + width])), p + width))
    case SignedKind(width) =>
      if p + width > |all| then NoMoreData
      else Got((Signed(width, ToSigned(FromLittleEndian(all[p..p + width]), width)), p + width))
    case TextKind =>
      if p + 2 > |all| then NoMoreData
      else
        var n := FromLittleEndian(all[p..p + 2]);
        if p + 2 + n > |all| then NoMoreData else Got((Text(all[p + 2..p + 2 + n]), p + 2 + n))
  }

  /** The bytes of values, one by one. */
  lemma EncodingBytes(n: nat, s: seq<byte>)
    ensures Encoding(Boolean(true)) == [1] && Encoding(Boolean(false)) == [0]
    ensures n < 65536 ==> Encoding(Unsigned(2, n)) == [n % 256, n / 256]
    ensures Encoding(Unsigned(4, n)) == [n % 256, n / 256 % 256, n / 65536 % 256, n / 16777216 % 256]
    ensures 0 < n <= 128 ==> Encoding(Signed(1, 0 - (n as int))) == [256 - n]
    ensures 0 < n <= 128 ==> Encoding(Signed(4, 0 - (n as int))) == [256 - n, 255, 255, 255]
    ensures |s| < 65536 ==> Encoding(Text(s)) == [|s| % 256, |s| / 256] + s
  {
    hide LittleEndian, Power256;
    SmallPowers();
    TakenApart(n);
    TakenApart(|s|);
    if 0 < n <= 128 {
      var i: int := n;
      assert -i % 256 == 256 - i && -i % 4294967296 == 4294967296 - i;
      TakenApart(256 - n);
      TakenApart(4294967296 - n);
    }
  }

  /** Reading an encoding gives the value back, exactly when the value fits its type. */
  lemma ReadsBack(v: Value, before: seq<byte>, after: seq<byte>)
    ensures var r := ValueAt(v.Kind(), before + Encoding(v) + after, |before|);
      v.Fits() <==> r == Got((v, |before| + |Encoding(v)|))
  {
    var e := Encoding(v);
    var all := before + e + after;
    assert all[|before|..|before| + |e|] == e;
    match v
    case Boolean(b) =>
    case Unsigned(width, n) =>
      LittleEndianRoundTrip(n, width);
      Below(n, Power256(width));
    case Signed(width, i) =>
      LittleEndianRoundTrip(i % Power256(width), width);
      SignedReadsBack(i, width);
    case Text(s) =>
      TextReadsBack(s, before, after);
  }

  lemma Below(n: nat, d: nat)
    requires d > 0
    ensures n < d <==> n % d == n
  {
    if n < d {
      DivideUnique(n, d, 0, n);
    }
  }

  lemma SignedReadsBack(i: int, width: nat)
    ensures var n := i % Power256(width);
      n % Power256(width) == n && (InSignedRange(i, Power256(width)) <==> ToSigned(n, width) == i)
  {
    var m := Power256(width);
    Below(i % m, m);
    ModOfSmall(i, m);
  }

  lemma ModOfSmall(i: int, m: int)
    requires m > 0
    ensures 0 <= i < m ==> i % m == i
    ensures -m <= i < 0 ==> i % m == i + m
  {
    var q, r := i / m, i % m;
    assert i == q * m + r;
    assert (q + 1) * m == q * m + m;
    MultipleInRange(q, m);
    MultipleInRange(q + 1, m);
  }

  lemma TextReadsBack(s: seq<byte>, before: seq<byte>, after: seq<byte>)
    ensures var e := Encoding(Text(s));
      |s| < 0x10000 <==> ValueAt(TextKind, before + e + after, |before|) == Got((Text(s), |before| + |e|))
  {
    var e := Encoding(Text(s));
    var all := before + e + after;
    var p := |before|;
    LittleEndianRoundTrip(|s|, 2);
    assert Power256(2) == 0x10000 by {
      assert Power256(1) == 256 * Power256(0);
    }
    assert all[p..p + 2] == LittleEndian(|s|, 2);
    if |s| < 0x10000 {
      Below(|s|, 0x10000);
      assert all[p + 2..p + 2 + |s|] == s;
    }
  }

  // ---------------------------------------------------------------- writing a list of values

  /** Two writes in a row are one write of both. */
  lemma PutTwice(cells: seq<Cell>, p: nat, a: seq<byte>, b: seq<byte>)
    requires p <= |cells|
    ensures p + |a| <= |Put(cells, p, a)|
    ensures Put(Put(cells, p, a), p + |a|, b) == Put(cells, p, a + b)
  {
    assert CellsOf(a + b) == CellsOf(a) + CellsOf(b);
  }

  method Write(out: PacketOut, v: Value)
    requires out.Valid()
    modifies out, out.pool, out.pool.owned, out.pool.Arrays()
    ensures out.Valid() && out.pos == old(out.pos) + |Encoding(v)|
    ensures out.cells == Put(old(out.cells), old(out.pos), Encoding(v))
    ensures out.Others() == old(out.Others()) && StillExclusive(out.Others(), old(out.pool.live), out.pool.live)
    ensures forall e <- old(out.Others()) :: Content(e) == old(Content(e))
    ensures out.pool.owned >= old(out.pool.owned) && fresh(out.pool.owned - old(out.pool.owned))
    ensures forall c <- out.pool.owned - old(out.pool.owned) :: fresh(c.data)
  {
    hide MemoryPool.Consistent, OwnedBy, Without, Put, StillExclusive, Content, PacketOut.Valid, PacketOut.Others;
    match v {
      case Boolean(b) => out.PutByte([if b then 1 else 0]);
      case Unsigned(width, n) => out.PutByte(LittleEndian(n, width));
      case Signed(width, i) => out.PutByte(LittleEndian(i % Power256(width), width));
      case Text(s) => WriteText(out, s);
    }
  }

  method WriteText(out: PacketOut, s: seq<byte>)
    requires out.Valid()
    modifies out, out.pool, out.pool.owned, out.pool.Arrays()
    ensures out.Valid() && out.pos == old(out.pos) + 2 + |s|
    ensures out.cells == Put(old(out.cells), old(out.pos), LittleEndian(|s|, 2) + s)
    ensures out.Others() == old(out.Others()) && StillExclusive(out.Others(), old(out.pool.live), out.pool.live)
    ensures forall e <- old(out.Others()) :: Content(e) == old(Content(e))
    ensures out.pool.owned >= old(out.pool.owned) && fresh(out.pool.owned - old(out.pool.owned))
    ensures forall c <- out.pool.owned - old(out.pool.owned) :: fresh(c.data)
  {
    hide MemoryPool.Consistent, OwnedBy, Without, Put, StillExclusive, Content, Exclusive, PacketOut.Valid, PacketOut.Others;
    PacketShape(out);
    PutTwice(out.cells, out.pos, LittleEndian(|s|, 2), s);
    ghost var start := out.pool.live;
    out.PutByte(LittleEndian(|s|, 2));
    ghost var mid := out.pool.live;
    out.PutByte(s);
    StillAndStill(out.Others(), start, mid, out.pool.live);
  }

  lemma PacketShape(out: PacketOut)
    requires out.Valid()
    ensures out.pos <= |out.cells| == out.size <= out.capacity
    ensures forall e <- out.Others() :: e in out.pool.live && e.offset + e.count <= e.chunk.data.Length
  {
    OthersInside(out.pool, out.data);
  }

  lemma StillAndStill(others: multiset<Extent>, a: multiset<Extent>, b: multiset<Extent>, c: multiset<Extent>)
    requires StillExclusive(others, a, b) && StillExclusive(others, b, c)
    ensures StillExclusive(others, a, c)
  {
  }

  lemma PutAtEnd(done: seq<byte>, e: seq<byte>)
    ensures Put(CellsOf(done), |done|, e) == CellsOf(done + e)
  {
  }

  lemma {:induction false} EncodingsSnoc(vs: seq<Value>, v: Value)
    ensures Encodings(vs + [v]) == Encodings(vs) + Encoding(v)
    decreases |vs|
  {
    if vs == [] {
      assert vs + [v] == [v];
      assert Encodings([v]) == Encoding(v) + Encodings([]);
    } else {
      assert (vs + [v])[1..] == vs[1..] + [v];
      EncodingsSnoc(vs[1..], v);
    }
  }

  lemma {:induction false} EncodingsCat(a: seq<Value>, b: seq<Value>)
    ensures Encodings(a + b) == Encodings(a) + Encodings(b)
    decreases |a|
  {
    if a == [] {
      assert a + b == b;
    } else {
      assert (a + b)[1..] == a[1..] + b;
      EncodingsCat(a[1..], b);
    }
  }

  lemma NothingEncoded(vs: seq<Value>, cells: seq<Cell>, p: nat)
    requires p <= |cells|
    ensures Encodings(vs[..0]) == [] && CellsOf([]) == [] && Put(cells, p, []) == cells
  {
  }

  /** Writes the values at the cursor, one after the other. */
  method WriteAll(out: PacketOut, vs: seq<Value>)
    requires out.Valid()
    modifies out, out.pool, out.pool.owned, out.pool.Arrays()
    ensures out.Valid() && out.pos == old(out.pos) + |Encodings(vs)|
    ensures out.cells == Put(old(out.cells), old(out.pos), Encodings(vs))
    ensures out.Others() == old(out.Others()) && StillExclusive(out.Others(), old(out.pool.live), out.pool.live)
    ensures forall e <- old(out.Others()) :: Content(e) == old(Content(e))
    ensures out.pool.owned >= old(out.pool.owned) && fresh(out.pool.owned - old(out.pool.owned))
    ensures forall c <- out.pool.owned - old(out.pool.owned) :: fresh(c.data)
  {
    hide MemoryPool.Consistent, Put, StillExclusive, Content, PacketOut.Valid, PacketOut.Others, CellsOf, Encodings, Encoding;
    PacketShape(out);
    ghost var cells, p := out.cells, out.pos;
    NothingEncoded(vs, cells, p);
    NothingChanged(out.Others(), out.pool.live);
    for i := 0 to |vs|
      invariant out.Valid() && out.pos == p + |Encodings(vs[..i])| && out.cells == Put(cells, p, Encodings(vs[..i]))
      invariant out.Others() == old(out.Others()) && StillExclusive(out.Others(), old(out.pool.live), out.pool.live)
      invariant forall e <- old(out.Others()) :: Content(e) == old(Content(e))
      invariant out.pool.owned >= old(out.pool.owned) && fresh(out.pool.owned - old(out.pool.owned))
      invariant forall c <- out.pool.owned - old(out.pool.owned) :: fresh(c.data)
    {
      PutTwice(cells, p, Encodings(vs[..i]), Encoding(vs[i]));
      EncodingsSnoc(vs[..i], vs[i]);
      assert vs[..i + 1] == vs[..i] + [vs[i]];
      ghost var mid := out.pool.live;
      Write(out, vs[i]);
      StillAndStill(out.Others(), old(out.pool.live), mid, out.pool.live);
    }
    assert vs[..|vs|] == vs;
  }

  lemma NothingChanged(others: multiset<Extent>, live: multiset<Extent>)
    ensures StillExclusive(others, live, live)
  {
  }

  /** Reads one value at the packet's cursor. */
  method ReadValue(pktin: PacketIn, kind: Kind) returns (r: Read<Value>)
    requires pktin.Valid()
    modifies pktin
    ensures pktin.Valid() && pktin.Contents() == old(pktin.Contents()) && Spans(pktin.data) == Spans(old(pktin.data))
    ensures old(pktin.pos) <= |pktin.Contents()|
    ensures match ValueAt(kind, pktin.Contents(), old(pktin.pos))
      case Got((v, p)) => r == Got(v) && pktin.pos == p
      case NoMoreData => r == NoMoreData
  {
    hide PacketIn.Valid, PacketIn.Contents, FromLittleEndian;
    PacketInShape(pktin);
    match kind {
      case BooleanKind =>
        var s := pktin.GetByte(1);
        r := if s.Got? then Got(Boolean(s.value[0] == 1)) else NoMoreData;
      case UnsignedKind(width) =>
        var n := pktin.ReadInteger(width);
        r := if n.Got? then Got(Unsigned(width, n.value)) else NoMoreData;
      case SignedKind(width) =>
        var n := pktin.ReadInteger(width);
        r := if n.Got? then Got(Signed(width, ToSigned(n.value, width))) else NoMoreData;
      case TextKind =>
        var s := pktin.ReadString();
        r := if s.Got? then Got(Text(s.value)) else NoMoreData;
    }
  }

  lemma PacketInShape(pktin: PacketIn)
    requires pktin.Valid()
    ensures pktin.pos <= pktin.size == |pktin.Contents()|
  {
    CursorHasMore(pktin.data, pktin.pos, pktin.posY);
  }

  predicate AllFit(vs: seq<Value>) {
    forall v <- vs :: v.Fits()
  }

  /** A packet is written, its bytes are fetched as windows, and a second packet reads them: the values are the same,
      whatever the chunk size and however often memory had to be acquired. */
  method RoundTrip(pool: MemoryPool, approx: nat, vs: seq<Value>) returns (back: seq<Value>)
    requires pool.Valid() && AllFit(vs)
    modifies pool, pool.owned, pool.Arrays()
    ensures back == vs
  {
    hide MemoryPool.Consistent, StillExclusive, Content, PacketOut.Others, CellsOf, Encodings, Encoding, Flat,
         PacketIn.Valid, PacketIn.Contents, PacketOut.Valid;
    var out := new PacketOut(approx, pool);
    WriteAll(out, vs);
    PutAtEnd([], Encodings(vs));
    NothingEncoded(vs, [], 0);
    assert [] + Encodings(vs) == Encodings(vs);
    FetchedBytes(out, Encodings(vs));
    var data := out.FetchData();
    var pktin := new PacketIn(data);
    back := ReadAll(pktin, vs);
  }

  lemma FetchedBytes(out: PacketOut, s: seq<byte>)
    requires out.Valid() && out.cells == CellsOf(s)
    ensures AllInside(out.data) && out.size <= |Flat(out.data)| && Flat(out.data)[..out.size] == s
  {
    hide Flat;
    CursorInside(out.data, out.pos, out.posY);
    AllWritten(Flat(out.data), s);
  }

  /** Reads values of the kinds of `vs`. */
  method ReadAll(pktin: PacketIn, vs: seq<Value>) returns (back: seq<Value>)
    requires pktin.Valid() && pktin.pos == 0 && pktin.Contents() == Encodings(vs) && AllFit(vs)
    modifies pktin
    ensures back == vs
  {
    hide PacketIn.Valid, PacketIn.Contents, Encodings, Encoding, ValueAt, Spans;
    back := [];
    NothingEncoded(vs, [], 0);
    for i := 0 to |vs|
      invariant pktin.Valid() && pktin.Contents() == Encodings(vs) && pktin.pos == |Encodings(vs[..i])|
      invariant back == vs[..i]
    {
      ValueInside(vs, i);
      var r := ReadValue(pktin, vs[i].Kind());
      back := back + [r.value];
    }
  }

  /** Value `i` of an encoded list is found where the encodings before it end. */
  lemma ValueInside(vs: seq<Value>, i: nat)
    requires i < |vs| && AllFit(vs)
    ensures var p := |Encodings(vs[..i])|;
      p <= |Encodings(vs)| && ValueAt(vs[i].Kind(), Encodings(vs), p) == Got((vs[i], |Encodings(vs[..i + 1])|))
  {
    hide Encodings, Encoding, ValueAt;
    assert vs == vs[..i + 1] + vs[i + 1..] && vs[..i + 1] == vs[..i] + [vs[i]];
    EncodingsSnoc(vs[..i], vs[i]);
    EncodingsCat(vs[..i + 1], vs[i + 1..]);
    ReadsBack(vs[i], Encodings(vs[..i]), Encodings(vs[i + 1..]));
  }
}
