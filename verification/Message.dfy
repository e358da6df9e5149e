/** Cluster messages: mailbox ids, the message head, and the cutting of a byte stream into messages. */
module Message {
  import opened Bytes

  const HEAD_SIZE: nat := 16
  const UINT32: nat := 0x1_0000_0000

  /** A mailbox id: a node in one byte and a process number in a signed 32-bit integer. */
  datatype MailboxID = MailboxID(nodeid: byte, pid: int) {
    /** The id as a 32-bit word. The mask on the process number has all bits set, so its high byte is or-ed
        into the node's byte. */
    function ValueID(): (v: nat)
      ensures v < UINT32
    {
      var p := pid % UINT32;
      Or(nodeid, p / 0x100_0000) * 0x100_0000 + p % 0x100_0000
    }
  }

  function Or(a: byte, b: byte): byte {
    ((a as bv8) | (b as bv8)) as byte
  }

  function ParseID(value: nat): MailboxID
    requires value < UINT32
  {
    MailboxID(value / 0x100_0000, value % 0x100_0000)
  }

  lemma OrZero(a: byte)
    ensures Or(a, 0) == a
  {
    assert (a as bv8) | 0 == a as bv8;
  }

  /** An id survives the trip exactly when its process number has 24 bits. */
  lemma IDRoundTrip(id: MailboxID)
    ensures ParseID(id.ValueID()) == id <==> 0 <= id.pid < 0x100_0000
  {
    hide Or;
    var p := id.pid % UINT32;
    if 0 <= id.pid < 0x100_0000 {
      OrZero(id.nodeid);
    }
  }

  /** A message as its sender describes it. */
  datatype Message = Message(code: nat, from: MailboxID, to: MailboxID, session: nat, body: seq<byte>) {
    predicate InRange() {
      && code < 0x10000 && session < 0x10000
      && 0 <= from.pid < 0x100_0000 && 0 <= to.pid < 0x100_0000
      && HEAD_SIZE + |body| < UINT32
    }
  }

  /** WriteHead: size, code, sender, receiver, session. */
  function Head(m: Message, size: nat): (s: seq<byte>)
    ensures |s| == HEAD_SIZE
  {
    LittleEndian(size, 4) + LittleEndian(m.code, 2) + LittleEndian(m.from.ValueID(), 4)
      + LittleEndian(m.to.ValueID(), 4) + LittleEndian(m.session, 2)
  }

  /** The message on the wire. */
  function Wire(m: Message): (s: seq<byte>)
    ensures |s| == HEAD_SIZE + |m.body|
  {
    Head(m, HEAD_SIZE + |m.body|) + m.body
  }

  /** ReadHead: the message that a received packet holds. */
  function Unwire(s: seq<byte>): Message
    requires |s| >= HEAD_SIZE
  {
    Message(FromLittleEndian(s[4..6]), ParseWord(s[6..10]), ParseWord(s[10..14]), FromLittleEndian(s[14..16]), s[16..])
  }

  function ParseWord(s: seq<byte>): MailboxID
    requires |s| == 4
  {
    FromLittleEndianBound(s);
    Power256Four();
    ParseID(FromLittleEndian(s))
  }

  lemma Power256Four()
    ensures Power256(2) == 0x10000 && Power256(4) == UINT32
  {
    assert Power256(1) == 256 * Power256(0);
    assert Power256(3) == 256 * Power256(2);
  }

  lemma WordRoundTrip(n: nat, k: nat)
    requires (k == 2 && n < 0x10000) || (k == 4 && n < UINT32)
    ensures FromLittleEndian(LittleEndian(n, k)) == n
  {
    hide LittleEndian, FromLittleEndian;
    LittleEndianRoundTrip(n, k);
    Power256Four();
  }

  /** A message in range arrives as it was sent, and its size field says how long it is. */
  lemma MessageRoundTrip(m: Message)
    requires m.InRange()
    ensures Unwire(Wire(m)) == m && FromLittleEndian(Wire(m)[..4]) == |Wire(m)|
  {
    hide LittleEndian, FromLittleEndian, MailboxID.ValueID, ParseID;
    var s := Wire(m);
    IDRoundTrip(m.from);
    IDRoundTrip(m.to);
    assert s[..4] == LittleEndian(|s|, 4);
    assert s[4..6] == LittleEndian(m.code, 2);
    assert s[6..10] == LittleEndian(m.from.ValueID(), 4);
    assert s[10..14] == LittleEndian(m.to.ValueID(), 4);
    assert s[14..16] == LittleEndian(m.session, 2);
    WordRoundTrip(|s|, 4);
    WordRoundTrip(m.code, 2);
    WordRoundTrip(m.from.ValueID(), 4);
    WordRoundTrip(m.to.ValueID(), 4);
    WordRoundTrip(m.session, 2);
  }

  /** The bytes of a message on the wire, one by one. */
  lemma WireBytes(m: Message)
    requires m.InRange()
    ensures var w, n := Wire(m), 16 + |m.body|;
      && w[0] == n % 256 && w[1] == n / 256 % 256 && w[2] == n / 65536 % 256 && w[3] == n / 16777216
      && w[4] == m.code % 256 && w[5] == m.code / 256
      && w[6] == m.from.pid % 256 && w[7] == m.from.pid / 256 % 256 && w[8] == m.from.pid / 65536 && w[9] == m.from.nodeid
      && w[10] == m.to.pid % 256 && w[11] == m.to.pid / 256 % 256 && w[12] == m.to.pid / 65536 && w[13] == m.to.nodeid
      && w[14] == m.session % 256 && w[15] == m.session / 256
      && w[16..] == m.body
  {
    hide LittleEndian, MailboxID.ValueID;
    var n := HEAD_SIZE + |m.body|;
    TakenApart(n);
    TakenApart(m.code);
    TakenApart(m.session);
    IDBytes(m.from);
    IDBytes(m.to);
    SixParts(LittleEndian(n, 4), LittleEndian(m.code, 2), LittleEndian(m.from.ValueID(), 4),
             LittleEndian(m.to.ValueID(), 4), LittleEndian(m.session, 2), m.body);
    HighBytes(n, m.code, m.session);
  }

  lemma HighBytes(n: nat, code: nat, session: nat)
    requires n < UINT32 && code < 0x10000 && session < 0x10000
    ensures n / 16777216 % 256 == n / 16777216 && code / 256 % 256 == code / 256 && session / 256 % 256 == session / 256
  {
  }

  lemma SixParts(a: seq<byte>, b: seq<byte>, c: seq<byte>, d: seq<byte>, e: seq<byte>, f: seq<byte>)
    requires |a| == 4 && |b| == 2 && |c| == 4 && |d| == 4 && |e| == 2
    ensures var w := a + b + c + d + e + f;
      && w[0] == a[0] && w[1] == a[1] && w[2] == a[2] && w[3] == a[3] && w[4] == b[0] && w[5] == b[1]
      && w[6] == c[0] && w[7] == c[1] && w[8] == c[2] && w[9] == c[3]
      && w[10] == d[0] && w[11] == d[1] && w[12] == d[2] && w[13] == d[3]
      && w[14] == e[0] && w[15] == e[1] && w[16..] == f
  {
  }

  /** The process number in the three low bytes, the node in the highest one. */
  lemma IDBytes(id: MailboxID)
    requires 0 <= id.pid < 0x100_0000
    ensures LittleEndian(id.ValueID(), 4) == [id.pid % 256, id.pid / 256 % 256, id.pid / 65536, id.nodeid]
  {
    hide LittleEndian, MailboxID.ValueID;
    IDNumber(id);
    TakenApart(id.ValueID());
    WordDigits(id.nodeid, id.pid);
  }

  lemma IDNumber(id: MailboxID)
    requires 0 <= id.pid < 0x100_0000
    ensures id.ValueID() == id.nodeid as int * 16777216 + id.pid
  {
    hide Or;
    OrZero(id.nodeid);
  }

  lemma WordDigits(node: byte, pid: nat)
    requires pid < 16777216
    ensures var v := node as int * 16777216 + pid;
      && v % 256 == pid % 256 && v / 256 % 256 == pid / 256 % 256
      && v / 65536 % 256 == pid / 65536 && v / 16777216 % 256 == node
  {
    HighPart(node, pid, 65536, 256);
    HighPart(node, pid, 256, 65536);
    HighPart(node, pid, 16777216, 1);
    assert pid / 256 == pid / 65536 * 256 + pid / 256 % 256;
  }

  lemma HighPart(node: int, pid: nat, d: nat, k: nat)
    requires (d == 65536 && k == 256) || (d == 256 && k == 65536) || (d == 16777216 && k == 1)
    ensures (node * 16777216 + pid) / d == node * k + pid / d
  {
  }

  /** A received message, read byte by byte. */
  lemma UnwireBytes(s: seq<byte>)
    requires |s| >= 16
    ensures Unwire(s) == Message(Number(s[4], s[5], 0, 0),
                                 MailboxID(s[9], Number(s[6], s[7], s[8], 0)),
                                 MailboxID(s[13], Number(s[10], s[11], s[12], 0)),
                                 Number(s[14], s[15], 0, 0), s[16..])
  {
    hide FromLittleEndian;
    AssembledFrom(s[4..6]);
    AssembledFrom(s[6..10]);
    AssembledFrom(s[10..14]);
    AssembledFrom(s[14..16]);
  }

  // ---------------------------------------------------------------- cutting the stream

  /** The length of the first packet of the received bytes, once it is complete. */
  function FirstFrame(s: seq<byte>): (n: nat)
    ensures n <= |s| && (n == 0 || n >= HEAD_SIZE)
  {
    if |s| < HEAD_SIZE then 0
    else
      var n := FromLittleEndian(s[..4]);
      if n >= HEAD_SIZE && |s| >= n then n else 0
  }

  /** The complete packets at the front of the received bytes. */
  function Frames(s: seq<byte>): (fs: seq<seq<byte>>)
    ensures forall f <- fs :: |f| >= HEAD_SIZE
    decreases |s|
  {
    var n := FirstFrame(s);
    if n == 0 then [] else [s[..n]] + Frames(s[n..])
  }

  /** What remains in the receive queue. */
  function Rest(s: seq<byte>): (r: seq<byte>)
    ensures FirstFrame(r) == 0
    decreases |s|
  {
    var n := FirstFrame(s);
    if n == 0 then s else Rest(s[n..])
  }

  /** Where the reads cut the stream makes no difference. */
  lemma {:induction false} FramesSplit(a: seq<byte>, b: seq<byte>)
    ensures Frames(a + b) == Frames(a) + Frames(Rest(a) + b)
    ensures Rest(a + b) == Rest(Rest(a) + b)
    decreases |a|
  {
    hide FirstFrame;
    var n := FirstFrame(a);
    if n > 0 {
      FirstFrameStays(a, b);
      SliceOfCat(a, b, n);
      FramesSplit(a[n..], b);
      assert Frames(a + b) == [a[..n]] + Frames(a[n..] + b);
    }
  }

  lemma SliceOfCat(a: seq<byte>, b: seq<byte>, n: nat)
    requires n <= |a|
    ensures (a + b)[..n] == a[..n] && (a + b)[n..] == a[n..] + b
  {
  }

  lemma FirstFrameStays(a: seq<byte>, b: seq<byte>)
    requires FirstFrame(a) > 0
    ensures FirstFrame(a + b) == FirstFrame(a)
  {
    assert (a + b)[..4] == a[..4];
  }

  predicate AllInRange(ms: seq<Message>) {
    forall i | 0 <= i < |ms| :: ms[i].InRange()
  }

  function Stream(ms: seq<Message>): seq<byte>
  {
    if ms == [] then [] else Wire(ms[0]) + Stream(ms[1..])
  }

  function Delivered(fs: seq<seq<byte>>): (ms: seq<Message>)
    requires forall f <- fs :: |f| >= HEAD_SIZE
    ensures |ms| == |fs|
  {
    seq(|fs|, i requires 0 <= i < |fs| => Unwire(fs[i]))
  }

  lemma {:induction false} StreamCat(a: seq<Message>, b: seq<Message>)
    ensures Stream(a + b) == Stream(a) + Stream(b)
    decreases |a|
  {
    if a == [] {
      assert a + b == b;
    } else {
      assert (a + b)[1..] == a[1..] + b;
      StreamCat(a[1..], b);
    }
  }

  /** The first packet in a prefix of a stream of messages: the first message, as soon as all of it is there. */
  lemma FirstOfStream(ms: seq<Message>, p: seq<byte>)
    requires AllInRange(ms) && p <= Stream(ms)
    ensures FirstFrame(p) == if ms != [] && |Wire(ms[0])| <= |p| then |Wire(ms[0])| else 0
    ensures FirstFrame(p) > 0 ==> p[..FirstFrame(p)] == Wire(ms[0]) && p[FirstFrame(p)..] <= Stream(ms[1..])
  {
    hide FromLittleEndian, Wire;
    if ms != [] {
      var w := Wire(ms[0]);
      MessageRoundTrip(ms[0]);
      if |p| >= HEAD_SIZE {
        assert p[..4] == w[..4];
      }
      if |w| <= |p| {
        assert p[..|w|] == Stream(ms)[..|w|] == w;
        assert p[|w|..] <= Stream(ms)[|w|..] == Stream(ms[1..]);
      }
    }
  }

  /** The packets `fs` and the remainder `r` of the bytes `p` are the messages that have arrived completely and the
      beginning of the next one. */
  ghost predicate CutRight(ms: seq<Message>, p: seq<byte>, fs: seq<seq<byte>>, r: seq<byte>) {
    var k := |fs|;
    && k <= |ms| && (forall f <- fs :: |f| >= HEAD_SIZE) && Delivered(fs) == ms[..k]
    && p == Stream(ms[..k]) + r
    && r <= Stream(ms[k..])
    && (k < |ms| ==> |r| < |Wire(ms[k])|)
  }

  /** From every prefix of the stream exactly those messages are cut that have arrived completely. */
  lemma {:induction false} PrefixIsDelivered(ms: seq<Message>, p: seq<byte>)
    requires AllInRange(ms) && p <= Stream(ms)
    ensures CutRight(ms, p, Frames(p), Rest(p))
    decreases |ms|
  {
    hide Wire, Unwire, FirstFrame, CutRight, Stream;
    FirstOfStream(ms, p);
    var n := FirstFrame(p);
    if n > 0 {
      PrefixIsDelivered(ms[1..], p[n..]);
      CutOneMore(ms, p, n, Frames(p[n..]), Rest(p));
    } else {
      CutNothing(ms, p);
    }
  }

  lemma CutNothing(ms: seq<Message>, p: seq<byte>)
    requires p <= Stream(ms) && (ms != [] ==> |p| < |Wire(ms[0])|)
    ensures CutRight(ms, p, [], p)
  {
    assert ms[..0] == [] && ms[0..] == ms;
  }

  lemma CutOneMore(ms: seq<Message>, p: seq<byte>, n: nat, fs: seq<seq<byte>>, r: seq<byte>)
    requires ms != [] && ms[0].InRange() && HEAD_SIZE <= n <= |p| && p[..n] == Wire(ms[0])
    requires CutRight(ms[1..], p[n..], fs, r)
    ensures CutRight(ms, p, [p[..n]] + fs, r)
  {
    hide Wire, Unwire, FirstFrame, Stream, Delivered;
    MessageRoundTrip(ms[0]);
    var k, rest := |fs|, ms[1..];
    PrefixOfRest(ms, k);
    DeliveredCons(p[..n], fs);
    StreamCons(ms[..k + 1]);
    TwoParts(p, n);
    Associates(Wire(ms[0]), Stream(rest[..k]), r);
  }

  lemma TwoParts(p: seq<byte>, n: nat)
    requires n <= |p|
    ensures p == p[..n] + p[n..]
  {
  }

  lemma PrefixOfRest(ms: seq<Message>, k: nat)
    requires k < |ms|
    ensures var m := ms[..k + 1];
      m == [ms[0]] + ms[1..][..k] && m != [] && m[0] == ms[0] && m[1..] == ms[1..][..k]
    ensures ms[1..][k..] == ms[k + 1..] && (k + 1 < |ms| ==> ms[1..][k] == ms[k + 1])
  {
  }

  lemma StreamCons(ms: seq<Message>)
    requires ms != []
    ensures Stream(ms) == Wire(ms[0]) + Stream(ms[1..])
  {
  }

  lemma DeliveredCons(f: seq<byte>, fs: seq<seq<byte>>)
    requires |f| >= HEAD_SIZE && forall g <- fs :: |g| >= HEAD_SIZE
    ensures (forall g <- [f] + fs :: |g| >= HEAD_SIZE) && Delivered([f] + fs) == [Unwire(f)] + Delivered(fs)
  {
    hide Unwire;
  }

  lemma Associates(a: seq<byte>, b: seq<byte>, c: seq<byte>)
    ensures a + (b + c) == a + b + c
  {
  }

  /** When the whole stream has arrived, every message has been delivered and nothing remains. */
  lemma StreamIsDelivered(ms: seq<Message>)
    requires AllInRange(ms)
    ensures Delivered(Frames(Stream(ms))) == ms && Rest(Stream(ms)) == []
  {
    hide Stream, Wire, Frames, Rest, Delivered;
    var s := Stream(ms);
    PrefixIsDelivered(ms, s);
    AllCut(ms, Frames(s), Rest(s));
  }

  lemma AllCut(ms: seq<Message>, fs: seq<seq<byte>>, r: seq<byte>)
    requires AllInRange(ms) && CutRight(ms, Stream(ms), fs, r)
    ensures Delivered(fs) == ms && r == []
  {
    hide Stream, Wire, Delivered;
    var k := |fs|;
    assert ms == ms[..k] + ms[k..];
    StreamCat(ms[..k], ms[k..]);
    SameRest(Stream(ms), Stream(ms[..k]), r, Stream(ms[k..]));
    FirstRemaining(ms[k..], r);
    NoStream();
  }

  lemma NoStream()
    ensures Stream([]) == []
  {
  }

  lemma SameRest(s: seq<byte>, a: seq<byte>, b: seq<byte>, c: seq<byte>)
    requires s == a + b && s == a + c
    ensures b == c
  {
    assert b == (a + b)[|a|..] && c == (a + c)[|a|..];
  }

  lemma FirstRemaining(ms: seq<Message>, r: seq<byte>)
    requires AllInRange(ms) && r == Stream(ms) && (ms != [] ==> |r| < |Wire(ms[0])|)
    ensures ms == []
  {
  }
}
