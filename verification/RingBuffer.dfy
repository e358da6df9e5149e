/** A bounded queue of bytes in a buffer of twice its size. */
module RingBuffer {
  import opened Bytes

  /** Where byte `i` behind position `b` is. */
  function Slot(b: nat, i: nat, max: nat): (k: nat)
    requires b < max && i <= max
    ensures k < max
  {
    if b + i < max then b + i else b + i - max
  }

  /** The `q` bytes from position `b` on, around the end of the first half of the buffer. */
  function Live(s: seq<byte>, b: nat, q: nat, max: nat): (r: seq<byte>)
    requires |s| == 2 * max && q <= max && (b < max || max == 0)
    ensures |r| == q
  {
    seq(q, i requires 0 <= i < q => s[Slot(b, i, max)])
  }

  /** Bytes behind the queue's end become part of it; what is written elsewhere does not matter. */
  lemma Appended(s: seq<byte>, s': seq<byte>, b: nat, q: nat, t: nat, max: nat, data: seq<byte>)
    requires |s| == |s'| == 2 * max && q + |data| <= max && b < max && t < max && t == Slot(b, q, max)
    requires forall i | 0 <= i < q :: s'[Slot(b, i, max)] == s[Slot(b, i, max)]
    requires forall k | 0 <= k < |data| :: s'[Slot(t, k, max)] == data[k]
    ensures Live(s', b, q + |data|, max) == Live(s, b, q, max) + data
  {
    forall i | q <= i < q + |data|
      ensures Slot(b, i, max) == Slot(t, i - q, max)
    {
    }
  }

  lemma Dropped(s: seq<byte>, b: nat, q: nat, max: nat, l: nat)
    requires |s| == 2 * max && q <= max && b < max && l <= q
    ensures Live(s, Slot(b, l, max), q - l, max) == Live(s, b, q, max)[l..]
  {
  }

  lemma Front(s: seq<byte>, b: nat, q: nat, max: nat, l: nat)
    requires |s| == 2 * max && q <= max && (b < max || max == b == 0) && l <= q
    ensures Live(s, b, q, max)[..l] == if b + l > max then s[b..max] + s[..b + l - max] else s[b..b + l]
  {
  }

  class CircularBuffer {
    const buf: array<byte>
    const max: nat
    var q: nat
    var b: nat
    var t: nat

    /** `q` bytes from `b` on; `t` is where the next one goes. */
    ghost predicate Valid()
      reads this
    {
      && buf.Length == 2 * max && q <= max
      && (if max == 0 then b == t == 0 else b < max && t < max)
      && t == (if b + q >= max then b + q - max else b + q)
    }

    /** The queue, oldest byte first. */
    ghost function Contents(): (s: seq<byte>)
      requires Valid()
      reads this, buf
      ensures |s| == q
    {
      Live(buf[..], b, q, max)
    }

    constructor (size: nat)
      ensures Valid() && fresh(buf) && max == size && Contents() == []
    {
      buf := new byte[2 * size];
      max := size;
      q, b, t := 0, 0, 0;
    }

    /** Appends all bytes, or none when there is no room. */
    method Write(s: seq<byte>) returns (ok: bool)
      requires Valid()
      modifies this`q, this`t, buf
      ensures Valid() && (ok <==> old(q) + |s| <= max)
      ensures Contents() == if ok then old(Contents()) + s else old(Contents())
    {
      var l := |s|;
      if q + l > max {
        return false;
      }
      if t + l > max {
        WriteAcross(s);
      } else {
        WriteTwice(s);
      }
      ok := true;
    }

    /** The block crosses the border: it is written behind the queue in full, and its second part again at the start. */
    method WriteAcross(s: seq<byte>)
      requires Valid() && q + |s| <= max && t + |s| > max
      modifies this`q, this`t, buf
      ensures Valid() && Contents() == old(Contents()) + s
    {
      ghost var was := buf[..];
      var l, l1 := |s|, max - t;
      forall k | 0 <= k < l {
        buf[t + k] := s[k];
      }
      forall k | 0 <= k < l - l1 {
        buf[k] := s[l1 + k];
      }
      Appended(was, buf[..], b, q, t, max, s);
      t := l - l1;
      q := q + l;
    }

    /** The block is written behind the queue, and once more in the second half of the buffer. */
    method WriteTwice(s: seq<byte>)
      requires Valid() && q + |s| <= max && t + |s| <= max
      modifies this`q, this`t, buf
      ensures Valid() && Contents() == old(Contents()) + s
    {
      ghost var was := buf[..];
      var l := |s|;
      forall k | 0 <= k < l {
        buf[t + k] := s[k];
      }
      forall k | 0 <= k < l {
        buf[max + t + k] := s[k];
      }
      if max > 0 {
        Appended(was, buf[..], b, q, t, max, s);
      }
      t := t + l;
      if t >= max {
        t := t - max;
      }
      q := q + l;
    }

    /** The oldest `l` bytes, which stay. */
    method SoftRead(l: nat) returns (ok: bool, dest: seq<byte>)
      requires Valid()
      ensures ok <==> l <= q
      ensures dest == if ok then Contents()[..l] else []
    {
      if l > q {
        return false, [];
      }
      Front(buf[..], b, q, max, l);
      if b + l > max {
        var l1 := max - b;
        dest := buf[b..b + l1];
        dest := dest + buf[..l - l1];
      } else {
        dest := buf[b..b + l];
      }
      ok := true;
    }

    /** The oldest `l` bytes, which go; an empty queue starts again at the beginning of the buffer. */
    method Read(l: nat) returns (ok: bool, dest: seq<byte>)
      requires Valid()
      modifies this`q, this`b, this`t
      ensures Valid() && (ok <==> l <= old(q))
      ensures dest == if ok then old(Contents())[..l] else []
      ensures Contents() == if ok then old(Contents())[l..] else old(Contents())
    {
      if l > q {
        return false, [];
      }
      Front(buf[..], b, q, max, l);
      if max > 0 {
        Dropped(buf[..], b, q, max, l);
      }
      ghost var before := Contents();
      if b + l > max {
        var l1 := max - b;
        dest := buf[b..b + l1];
        dest := dest + buf[..l - l1];
        b := l - l1;
        q := q - l;
      } else {
        dest := buf[b..b + l];
        b := b + l;
        if b >= max {
          b := b - max;
        }
        q := q - l;
      }
      if q == 0 {
        b := 0;
        t := 0;
      }
      ok := true;
    }
  }

  /** What a client does with the queue. */
  datatype Use = Put(s: seq<byte>) | Take(l: nat)

  /** A bounded first-in first-out queue of bytes: what is taken, and what is left. */
  function Queue(max: nat, uses: seq<Use>): (r: (seq<byte>, seq<byte>))
    ensures |r.1| <= max
    decreases |uses|
  {
    if uses == [] then ([], [])
    else
      var (taken, left) := Queue(max, uses[..|uses| - 1]);
      match uses[|uses| - 1]
      case Put(s) => if |left| + |s| <= max then (taken, left + s) else (taken, left)
      case Take(l) => if l <= |left| then (taken + left[..l], left[l..]) else (taken, left)
  }

  /** The bytes of the accepted writes. */
  function Accepted(max: nat, uses: seq<Use>): seq<byte>
    decreases |uses|
  {
    if uses == [] then []
    else
      var u, before := uses[|uses| - 1], uses[..|uses| - 1];
      Accepted(max, before) + if u.Put? && |Queue(max, before).1| + |u.s| <= max then u.s else []
  }

  /** Nothing is lost, invented or reordered: what was taken and what is left are the accepted bytes. */
  lemma {:induction false} FirstInFirstOut(max: nat, uses: seq<Use>)
    ensures Queue(max, uses).0 + Queue(max, uses).1 == Accepted(max, uses)
    decreases |uses|
  {
    if uses != [] {
      var before := uses[..|uses| - 1];
      FirstInFirstOut(max, before);
      var (taken, left) := Queue(max, before);
      match uses[|uses| - 1]
      case Put(s) => assert taken + (left + s) == taken + left + s;
      case Take(l) =>
        if l <= |left| {
          assert taken + left[..l] + left[l..] == taken + left;
        }
    }
  }

  /** The ring buffer is that queue, over any sequence of writes and reads. */
  method UseBuffer(size: nat, uses: seq<Use>) returns (buffer: CircularBuffer, taken: seq<byte>)
    ensures buffer.Valid() && fresh(buffer) && (taken, buffer.Contents()) == Queue(size, uses)
  {
    buffer := new CircularBuffer(size);
    taken := [];
    var i := 0;
    while i < |uses|
      invariant 0 <= i <= |uses| && buffer.Valid() && buffer.max == size && fresh(buffer) && fresh(buffer.buf)
      invariant (taken, buffer.Contents()) == Queue(size, uses[..i])
    {
      assert uses[..i + 1][..i] == uses[..i] && taken + [] == taken;
      match uses[i] {
        case Put(s) =>
          var ok := buffer.Write(s);
        case Take(l) =>
          var ok, dest := buffer.Read(l);
          taken := taken + dest;
      }
      i := i + 1;
    }
    assert uses[..|uses|] == uses;
  }
}
