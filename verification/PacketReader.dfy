/** Received packets: byte buffers over lists of windows, read with a cursor. */
module PacketReader {
  import opened Bytes
  import opened Memory
  import opened Windows
  import opened Cursor

  /** Reading past the end throws in the program. */
  datatype Read<+T> = Got(value: T) | NoMoreData

  /** A received packet. */
  class PacketIn {
    var data: seq<Window>
    var size: nat
    var capacity: nat
    var pos: nat
    var posY: nat

    ghost predicate Valid()
      reads this
    {
      CursorAt(data, pos, posY) && size == capacity == Total(data)
    }

    /** The bytes of the packet, whatever the windows. */
    ghost function Contents(): seq<byte>
      requires Valid()
      reads this, set w | w in data :: w.chunk.data
    {
      Flat(data)
    }

    constructor (data: seq<Window>)
      requires AllInside(data)
      ensures Valid() && pos == 0 && Spans(this.data) == Spans(data) && Contents() == Flat(data)
    {
      var rewound, y := SkipWindows(data, 0);
      this.data := rewound;
      capacity := Total(rewound);
      size := Total(rewound);
      pos, posY := 0, y;
      new;
      FlatOfSpans(rewound, data);
    }

    method SkipTo(p: nat)
      requires Valid() && p <= capacity
      modifies this
      ensures Valid() && pos == p && Spans(data) == Spans(old(data)) && size == old(size)
      ensures Contents() == old(Contents())
    {
      hide Flat, Spans;
      CursorInside(data, pos, posY);
      ghost var before := data;
      data, posY := SkipWindows(data, p);
      CursorInside(data, p, posY);
      TotalOfSpans(data, before);
      FlatOfSpans(data, before);
      pos := p;
    }

    /** Copies the next `count` bytes, or throws and moves nothing. */
    method GetByte(count: nat) returns (r: Read<seq<byte>>)
      requires Valid()
      modifies this
      ensures Valid() && Spans(data) == Spans(old(data)) && size == old(size) && Contents() == old(Contents())
      ensures if old(pos) + count > size then r == NoMoreData && pos == old(pos)
              else r == Got(Contents()[old(pos)..old(pos) + count]) && pos == old(pos) + count
    {
      hide Flat, Spans, CursorAt;
      CursorInside(data, pos, posY);
      if pos + count > size {
        return NoMoreData;
      }
      ghost var before := data;
      var bytes;
      bytes, data, posY := ReadWindows(data, posY, count, pos);
      CursorInside(data, pos + count, posY);
      TotalOfSpans(data, before);
      FlatOfSpans(data, before);
      pos := pos + count;
      return Got(bytes);
    }

    /** An unsigned integer of `k` bytes. */
    method ReadInteger(k: nat) returns (r: Read<nat>)
      requires Valid()
      modifies this
      ensures Valid() && Spans(data) == Spans(old(data)) && size == old(size) && Contents() == old(Contents())
      ensures if old(pos) + k > size then r == NoMoreData && pos == old(pos)
              else r == Got(FromLittleEndian(Contents()[old(pos)..old(pos) + k])) && pos == old(pos) + k
    {
      var bytes := GetByte(k);
      match bytes {
        case Got(s) => return Got(FromLittleEndian(s));
        case NoMoreData => return NoMoreData;
      }
    }

    /** A string: its length in two bytes, then its bytes. */
    method ReadString() returns (r: Read<seq<byte>>)
      requires Valid()
      modifies this
      ensures Valid() && Spans(data) == Spans(old(data)) && size == old(size) && Contents() == old(Contents())
      ensures var p := old(pos); var all := Contents();
        if p + 2 > size then r == NoMoreData && pos == p
        else
          var n := FromLittleEndian(all[p..p + 2]);
          if p + 2 + n > size then r == NoMoreData && pos == p + 2
          else r == Got(all[p + 2..p + 2 + n]) && pos == p + 2 + n
    {
      hide CursorAt, Flat;
      var len := ReadInteger(2);
      match len {
        case Got(n) => r := GetByte(n);
        case NoMoreData => return NoMoreData;
      }
    }
  }
}
