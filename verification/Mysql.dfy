/** The database protocol's framing: packets with a length in three bytes, cut from the receive queue. */
module Mysql {
  import opened Bytes
  import opened Memory
  import opened Windows
  import opened Client
  import Connector
  import PacketValues

  const HEAD: nat := 4

  datatype Packet = Packet(sequence: byte, payload: seq<byte>)

  predicate InRange(p: Packet) {
    |p.payload| < 0x100_0000
  }

  /** WriteHead: the payload's length, and the sequence number. */
  function Wire(p: Packet): (s: seq<byte>)
    ensures |s| == HEAD + |p.payload|
  {
    LittleEndian(|p.payload|, 3) + [p.sequence] + p.payload
  }

  /** ReadHead: the length is checked against the packet's size. */
  predicate Broken(s: seq<byte>)
    requires |s| >= HEAD
  {
    FromLittleEndian(s[..3]) + 3 + 1 != |s|
  }

  function Unwire(s: seq<byte>): Packet
    requires |s| >= HEAD
  {
    Packet(s[3], s[HEAD..])
  }

  /** The length of the first packet once it is complete, 0 before. */
  function FirstPacket(s: seq<byte>): (n: nat)
    ensures n <= |s| && (n == 0 || n >= HEAD)
  {
    if |s| < HEAD then 0
    else
      var n := FromLittleEndian(s[..3]) + HEAD;
      if |s| >= n then n else 0
  }

  function Cut(s: seq<byte>): seq<Packet>
    decreases |s|
  {
    var n := FirstPacket(s);
    if n == 0 then [] else [Unwire(s[..n])] + Cut(s[n..])
  }

  function Rest(s: seq<byte>): (r: seq<byte>)
    ensures FirstPacket(r) == 0
    decreases |s|
  {
    var n := FirstPacket(s);
    if n == 0 then s else Rest(s[n..])
  }

  /** What stands first in the received bytes: the length in three bytes, the lowest first, the sequence number, the
      payload. */
  lemma FirstBytes(s: seq<byte>)
    ensures |s| >= 4 ==>
      var n := Number(s[0], s[1], s[2], 0);
      if |s| >= 4 + n then Cut(s) == [Packet(s[3], s[4..4 + n])] + Cut(s[4 + n..]) && Rest(s) == Rest(s[4 + n..])
      else Cut(s) == [] && Rest(s) == s
    ensures |s| < 4 ==> Cut(s) == [] && Rest(s) == s
  {
    hide FromLittleEndian, Cut, Rest;
    CutStep(s);
    if |s| >= 4 {
      AssembledFrom(s[..3]);
      var n := Number(s[0], s[1], s[2], 0);
      if |s| >= 4 + n {
        assert s[..4 + n][3] == s[3] && s[..4 + n][HEAD..] == s[4..4 + n];
      }
    }
  }

  /** The first packet in the received bytes `s`, when `packets` are handed over and `left` stays. */
  predicate FirstOf(s: seq<byte>, packets: seq<Packet>, left: seq<byte>) {
    if |s| >= 4 && |s| >= 4 + Number(s[0], s[1], s[2], 0) then
      packets != [] && packets[0] == Packet(s[3], s[4..4 + Number(s[0], s[1], s[2], 0)])
    else packets == [] && left == s
  }

  lemma FirstIs(s: seq<byte>)
    ensures FirstOf(s, Cut(s), Rest(s))
  {
    hide Cut, Rest;
    FirstBytes(s);
  }

  lemma CutStep(s: seq<byte>)
    ensures var n := FirstPacket(s);
      if n == 0 then Cut(s) == [] && Rest(s) == s
      else Cut(s) == [Unwire(s[..n])] + Cut(s[n..]) && Rest(s) == Rest(s[n..])
  {
    hide FirstPacket, Unwire;
  }

  /** A packet as a server sends it. */
  lemma ServerPacket(sequence: byte, payload: seq<byte>, more: seq<byte>)
    requires |payload| < 16777216
    ensures var n := |payload|; var s := [n % 256, n / 256 % 256, n / 65536] + [sequence] + payload + more;
      Cut(s) == [Packet(sequence, payload)] + Cut(more) && Rest(s) == Rest(more)
    ensures var n := |payload|;
      Wire(Packet(sequence, payload)) == [n % 256, n / 256 % 256, n / 65536] + [sequence] + payload
  {
    hide Cut, Rest, LittleEndian;
    var n := |payload|;
    var head: seq<byte> := [n % 256, n / 256 % 256, n / 65536];
    var s := head + [sequence] + payload + more;
    TakenApart(n);
    assert s[0] == head[0] && s[1] == head[1] && s[2] == head[2] && s[3] == sequence;
    DigitsOf(n);
    FirstBytes(s);
    assert s[4..4 + n] == payload && s[4 + n..] == more;
  }

  lemma DigitsOf(n: nat)
    requires n < 16777216
    ensures n % 256 + 256 * (n / 256 % 256) + 65536 * (n / 65536) == n && n / 65536 < 256
  {
    assert n / 65536 == n / 256 / 256;
  }

  /** A packet that has been cut out never fails the check of its head. */
  lemma NeverBroken(s: seq<byte>)
    requires FirstPacket(s) > 0
    ensures !Broken(s[..FirstPacket(s)])
  {
    assert s[..FirstPacket(s)][..3] == s[..3];
  }

  /** Where the reads cut the stream makes no difference. */
  lemma {:induction false} CutSplit(a: seq<byte>, b: seq<byte>)
    ensures Cut(a + b) == Cut(a) + Cut(Rest(a) + b) && Rest(a + b) == Rest(Rest(a) + b)
    decreases |a|
  {
    hide FirstPacket;
    var n := FirstPacket(a);
    if n > 0 {
      FirstStays(a, b);
      assert (a + b)[..n] == a[..n] && (a + b)[n..] == a[n..] + b;
      CutSplit(a[n..], b);
      assert Cut(a + b) == [Unwire(a[..n])] + Cut(a[n..] + b);
    }
  }

  lemma FirstStays(a: seq<byte>, b: seq<byte>)
    requires FirstPacket(a) > 0
    ensures FirstPacket(a + b) == FirstPacket(a)
  {
    assert (a + b)[..3] == a[..3];
  }

  function Stream(ps: seq<Packet>): seq<byte> {
    if ps == [] then [] else Wire(ps[0]) + Stream(ps[1..])
  }

  /** A packet is read back exactly when its payload has fewer than 2^24 bytes. */
  lemma WireRoundTrip(p: Packet, more: seq<byte>)
    ensures var s := Wire(p) + more;
      InRange(p) <==> FirstPacket(s) == |Wire(p)| && s[..|Wire(p)|] == Wire(p) && Unwire(Wire(p)) == p
  {
    hide LittleEndian, FromLittleEndian;
    var s := Wire(p) + more;
    assert s[..3] == LittleEndian(|p.payload|, 3);
    assert Power256(3) == 0x100_0000 by {
      assert Power256(2) == 256 * Power256(1);
    }
    LittleEndianRoundTrip(|p.payload|, 3);
    PacketValues.Below(|p.payload|, Power256(3));
  }

  /** From a stream of packets and the beginning of another one, the packets are cut and the beginning is left. */
  lemma {:induction false} StreamIsCut(ps: seq<Packet>, tail: seq<byte>)
    requires (forall i | 0 <= i < |ps| :: InRange(ps[i])) && FirstPacket(tail) == 0
    ensures Cut(Stream(ps) + tail) == ps && Rest(Stream(ps) + tail) == tail
    decreases |ps|
  {
    hide FirstPacket, Wire, Unwire;
    if ps == [] {
      assert Stream(ps) + tail == tail;
    } else {
      var more := Stream(ps[1..]) + tail;
      WireRoundTrip(ps[0], more);
      StreamIsCut(ps[1..], tail);
      assert Stream(ps) + tail == Wire(ps[0]) + more;
      assert (Wire(ps[0]) + more)[|Wire(ps[0])|..] == more;
      assert ps == [ps[0]] + ps[1..];
    }
  }

  /** OnReceive: cuts every complete packet from the receive queue. */
  method OnReceive(c: Client) returns (packets: seq<Packet>)
    requires c.Valid()
    modifies c`recvq, c`recvqCount, c.pool, c.pool.owned
    ensures c.Valid() && c.Others() == old(c.Others()) && c.pool.owned <= old(c.pool.owned)
    ensures packets == Cut(old(c.Received())) && c.Received() == Rest(old(c.Received()))
    ensures FirstOf(old(c.Received()), packets, c.Received())
    ensures c.Sending() == old(c.Sending())
  {
    hide MemoryPool.Consistent, Writable, Rewound, HeldIn, Within, Beside, Flat, Spans, Unwire, FromLittleEndian, Cut, Rest,
         FirstOf;
    ghost var all := c.Received();
    FirstIs(all);
    packets := [];
    var count := c.recvqCount;
    Connector.ReceivedCount(c);
    while count >= HEAD
      invariant c.Valid() && c.Others() == old(c.Others()) && c.pool.owned <= old(c.pool.owned)
      invariant 0 <= count == |c.Received()| && c.Sending() == old(c.Sending())
      invariant Cut(all) == packets + Cut(c.Received()) && Rest(all) == Rest(c.Received())
      decreases count
    {
      ghost var s := c.Received();
      var word := c.CopyReceive(3);
      var size := FromLittleEndian(word) + HEAD;
      NextPacket(s);
      if count >= size {
        var p := ReceiveOne(c, size);
        packets := packets + [p];
        count := count - size;
      } else {
        break;
      }
    }
    NoPacket(c.Received());
  }

  /** Pops one packet and reads it. */
  method ReceiveOne(c: Client, size: nat) returns (p: Packet)
    requires c.Valid() && HEAD <= size <= |c.Received()|
    modifies c`recvq, c`recvqCount, c.pool, c.pool.owned
    ensures c.Valid() && c.Others() == old(c.Others()) && c.pool.owned <= old(c.pool.owned)
    ensures p == Unwire(old(c.Received())[..size]) && c.Received() == old(c.Received())[size..]
    ensures c.Sending() == old(c.Sending())
  {
    hide MemoryPool.Consistent, Writable, Rewound, HeldIn, Within, Beside, Flat, Spans, Unwire;
    Connector.ReceivedCount(c);
    ghost var others := c.Others();
    var data, total := c.PopReceive(size);
    var s := ReadAll(data);
    p := Unwire(s);
    Connector.GivesBack(others, data);
    c.Discard(data);
  }

  method ReadAll(data: seq<Window>) returns (s: seq<byte>)
    requires AllInside(data)
    ensures s == Flat(data)
  {
    s := [];
    assert data[..0] == [];
    for i := 0 to |data|
      invariant s == Flat(data[..i])
    {
      var w := data[i];
      assert data[..i + 1] == data[..i] + [w];
      FlatSnoc(data[..i], w);
      s := s + w.chunk.data[w.offset..w.offset + w.count];
    }
    assert data[..|data|] == data;
  }

  /** One round of the loop. */
  lemma NextPacket(s: seq<byte>)
    requires |s| >= HEAD
    ensures var n := FromLittleEndian(s[..3]) + HEAD;
      if n <= |s| then Cut(s) == [Unwire(s[..n])] + Cut(s[n..]) && Rest(s) == Rest(s[n..])
      else FirstPacket(s) == 0
  {
    hide Unwire, FromLittleEndian;
  }

  lemma NoPacket(s: seq<byte>)
    requires FirstPacket(s) == 0
    ensures Cut(s) == [] && Rest(s) == s
  {
  }
}
