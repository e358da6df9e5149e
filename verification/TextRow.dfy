/** A database row in text form: columns are found once and read at random afterwards. */
module TextRow {
  import opened Bytes
  import opened Memory
  import opened Windows
  import opened Cursor
  import opened PacketReader
  import PacketValues

  const HEAD: nat := 4

  /** A column of a string type. */
  datatype Column = NullColumn | Text(s: seq<byte>)

  /** Lengths whose encoding the program reads back: the form with three bytes leaves one byte of the length unset. */
  predicate Readable(n: nat) {
    n < 0x10000 || 0x100_0000 <= n < 0x1_0000_0000
  }

  predicate AllReadable(cols: seq<Column>) {
    forall i | 0 <= i < |cols| :: cols[i].Text? ==> Readable(|cols[i].s|)
  }

  /** A length-encoded integer. */
  function VariableInteger(n: nat): (s: seq<byte>)
    ensures s != [] && s[0] != 0xFB
  {
    if n < 251 then [n]
    else if n < 0x10000 then [0xFC] + LittleEndian(n, 2)
    else if n < 0x100_0000 then [0xFD] + LittleEndian(n, 3)
    else [0xFE] + LittleEndian(n, 8)
  }

  function Encoded(c: Column): (s: seq<byte>)
    ensures s != []
  {
    match c
    case NullColumn => [0xFB]
    case Text(s) => VariableInteger(|s|) + s
  }

  function Row(cols: seq<Column>): seq<byte> {
    if cols == [] then [] else Row(cols[..|cols| - 1]) + Encoded(cols[|cols| - 1])
  }

  /** Where column `i` begins in the packet. */
  function Offset(cols: seq<Column>, i: nat): nat
    requires i <= |cols|
  {
    HEAD + |Row(cols[..i])|
  }

  lemma {:induction false} RowSplits(cols: seq<Column>, i: nat)
    requires i <= |cols|
    ensures Row(cols[..i]) <= Row(cols)
    decreases |cols|
  {
    if i < |cols| {
      RowSplits(cols[..|cols| - 1], i);
      assert cols[..|cols| - 1][..i] == cols[..i];
    } else {
      assert cols[..i] == cols;
    }
  }

  /** The bytes of column `i` stand at its offset. */
  lemma ColumnAt(cols: seq<Column>, i: nat, all: seq<byte>)
    requires i < |cols| && |all| >= HEAD && all[HEAD..] == Row(cols)
    ensures var p := Offset(cols, i);
      && Offset(cols, i + 1) == p + |Encoded(cols[i])| <= |all|
      && all[p..p + |Encoded(cols[i])|] == Encoded(cols[i])
  {
    hide Row, Encoded;
    RowSplits(cols, i + 1);
    RowStep(cols, i);
    PartOfRow(all, Row(cols), Row(cols[..i]), Encoded(cols[i]));
  }

  lemma RowStep(cols: seq<Column>, i: nat)
    requires i < |cols|
    ensures Row(cols[..i + 1]) == Row(cols[..i]) + Encoded(cols[i])
  {
    assert cols[..i + 1][..i] == cols[..i];
  }

  lemma PartOfRow(all: seq<byte>, row: seq<byte>, a: seq<byte>, b: seq<byte>)
    requires |all| >= HEAD && all[HEAD..] == row && a + b <= row
    ensures HEAD + |a| + |b| <= |all| && all[HEAD + |a|..HEAD + |a| + |b|] == b
  {
    assert row[|a|..|a| + |b|] == (a + b)[|a|..];
    assert all[HEAD + |a|..HEAD + |a| + |b|] == all[HEAD..][|a|..|a| + |b|];
  }

  lemma VariableIntegerBytes(n: nat)
    requires Readable(n)
    ensures var s := VariableInteger(n);
      && (n < 251 ==> s == [n])
      && (251 <= n < 0x10000 ==> |s| == 3 && s[0] == 0xFC && FromLittleEndian(s[1..3]) == n)
      && (0x10000 <= n ==> |s| == 9 && s[0] == 0xFE && FromLittleEndian(s[1..9]) == n)
  {
    hide LittleEndian, FromLittleEndian;
    var s := VariableInteger(n);
    if 251 <= n < 0x10000 {
      LittleEndianRoundTrip(n, 2);
      PacketValues.Below(n, Power256(2));
      Powers();
      assert s[1..3] == LittleEndian(n, 2);
    } else if n >= 0x10000 {
      LittleEndianRoundTrip(n, 8);
      PacketValues.Below(n, Power256(8));
      Powers();
      assert s[1..9] == LittleEndian(n, 8);
    }
  }

  /** The bytes of a column, one by one; a null column is the single byte 251. */
  lemma ColumnBytes(s: seq<byte>)
    ensures Encoded(NullColumn) == [251]
    ensures |s| < 251 ==> Encoded(Text(s)) == [|s|] + s
    ensures 251 <= |s| < 65536 ==> Encoded(Text(s)) == [252, |s| % 256, |s| / 256] + s
  {
    hide LittleEndian;
    if 251 <= |s| < 65536 {
      TakenApart(|s|);
    }
  }

  lemma Powers()
    ensures Power256(2) == 0x10000 && Power256(8) >= 0x1_0000_0000
  {
    assert Power256(2) == 256 * Power256(1);
    assert Power256(4) == 256 * Power256(3);
    assert Power256(6) == 256 * Power256(5);
  }

  /** The byte under the cursor. */
  method CurrentByte(pktin: PacketIn) returns (b: byte)
    requires pktin.Valid() && pktin.pos < pktin.size
    ensures pktin.pos < |pktin.Contents()| && b == pktin.Contents()[pktin.pos]
  {
    hide Flat, Total;
    CursorHasMore(pktin.data, pktin.pos, pktin.posY);
    var w := pktin.data[pktin.posY];
    b := w.chunk.data[w.offset + w.pos];
    BytesAtCursor(pktin.data, pktin.pos, pktin.posY, 1);
    assert Content(w.Span())[w.pos..w.pos + 1][0] == b;
  }

  /** A length-encoded integer; `unset` is the byte that the three-byte form leaves unset. */
  method ReadVariableInteger(pktin: PacketIn) returns (r: Read<nat>)
    requires pktin.Valid()
    modifies pktin
    ensures pktin.Valid() && pktin.Contents() == old(pktin.Contents()) && Spans(pktin.data) == Spans(old(pktin.data))
    ensures pktin.size == old(pktin.size) && pktin.size == |pktin.Contents()|
    ensures forall n: nat | Readable(n) ::
        old(pktin.pos) + |VariableInteger(n)| <= pktin.size
        && pktin.Contents()[old(pktin.pos)..old(pktin.pos) + |VariableInteger(n)|] == VariableInteger(n)
        ==> r == Got(n) && pktin.pos == old(pktin.pos) + |VariableInteger(n)|
  {
    hide PacketIn.Valid, PacketIn.Contents, FromLittleEndian, Spans, VariableInteger;
    PacketValues.PacketInShape(pktin);
    ghost var p, all := pktin.pos, pktin.Contents();
    forall n: nat | Readable(n) && p + |VariableInteger(n)| <= |all| && all[p..p + |VariableInteger(n)|] == VariableInteger(n)
      ensures p < |all| && LengthAt(all, p, n)
    {
      LengthBytes(all, p, n);
    }
    var first := pktin.GetByte(1);
    if first.NoMoreData? {
      return NoMoreData;
    }
    var tag := first.value[0];
    if tag < 251 {
      r := Got(tag as nat);
    } else if tag == 0xFC {
      r := pktin.ReadInteger(2);
    } else if tag == 0xFD {
      var low := pktin.ReadInteger(3);
      var unset: nat :| unset < 256;
      r := if low.Got? then Got(low.value + 0x100_0000 * unset) else NoMoreData;
    } else if tag == 0xFE {
      r := pktin.ReadInteger(8);
    } else {
      r := NoMoreData;
    }
  }

  /** What the bytes of the length `n` look like at `p`. */
  ghost predicate LengthAt(all: seq<byte>, p: nat, n: nat) {
    && p + |VariableInteger(n)| <= |all|
    && if n < 251 then all[p] == n && |VariableInteger(n)| == 1
       else if n < 0x10000 then
         all[p] == 0xFC && |VariableInteger(n)| == 3 && FromLittleEndian(all[p + 1..p + 3]) == n
       else all[p] == 0xFE && |VariableInteger(n)| == 9 && FromLittleEndian(all[p + 1..p + 9]) == n
  }

  lemma LengthBytes(all: seq<byte>, p: nat, n: nat)
    requires Readable(n) && p + |VariableInteger(n)| <= |all|
    requires all[p..p + |VariableInteger(n)|] == VariableInteger(n)
    ensures p < |all| && LengthAt(all, p, n)
  {
    hide FromLittleEndian, VariableInteger;
    VariableIntegerBytes(n);
    var s := VariableInteger(n);
    assert all[p] == all[p..p + |s|][0];
    if n >= 251 {
      assert all[p + 1..p + |s|] == all[p..p + |s|][1..|s|];
    }
  }

  /** A length-encoded string: its length, then its bytes. */
  method ReadLengthEncodedString(pktin: PacketIn) returns (r: Read<seq<byte>>)
    requires pktin.Valid()
    modifies pktin
    ensures pktin.Valid() && pktin.Contents() == old(pktin.Contents()) && Spans(pktin.data) == Spans(old(pktin.data))
    ensures pktin.size == old(pktin.size) == |pktin.Contents()|
    ensures forall s: seq<byte> | Readable(|s|) && TextStands(pktin.Contents(), old(pktin.pos), s) ::
        r == Got(s) && pktin.pos == old(pktin.pos) + |Encoded(Text(s))|
  {
    hide PacketIn.Valid, PacketIn.Contents, Spans, VariableInteger, Readable;
    PacketValues.PacketInShape(pktin);
    ghost var p, all := pktin.pos, pktin.Contents();
    var len := ReadVariableInteger(pktin);
    if len.NoMoreData? {
      forall s: seq<byte> | Readable(|s|) && TextStands(all, p, s)
        ensures false
      {
        TextParts(all, p, s);
      }
      return NoMoreData;
    }
    ghost var q := pktin.pos;
    r := pktin.GetByte(len.value);
    forall s: seq<byte> | Readable(|s|) && TextStands(all, p, s)
      ensures r == Got(s) && pktin.pos == p + |Encoded(Text(s))|
    {
      TextParts(all, p, s);
    }
  }

  ghost predicate TextStands(all: seq<byte>, p: nat, s: seq<byte>) {
    p + |Encoded(Text(s))| <= |all| && all[p..p + |Encoded(Text(s))|] == Encoded(Text(s))
  }

  lemma TextParts(all: seq<byte>, p: nat, s: seq<byte>)
    requires TextStands(all, p, s)
    ensures var n := |VariableInteger(|s|)|;
      && p + n + |s| == p + |Encoded(Text(s))| <= |all|
      && all[p..p + n] == VariableInteger(|s|) && all[p + n..p + n + |s|] == s
  {
    hide VariableInteger;
    var e, n := Encoded(Text(s)), |VariableInteger(|s|)|;
    assert all[p..p + n] == all[p..p + |e|][..n] && all[p + n..p + n + |s|] == all[p..p + |e|][n..];
  }

  /** Where a column is, or that it is NULL. */
  datatype Field = Field(isNull: bool, bufferPos: nat)

  class RowReaderText {
    const pktin: PacketIn
    var fields: seq<Field>

    /** The reader holds the row `cols`; the cursor may be anywhere. */
    ghost predicate Holds(cols: seq<Column>)
      reads this, pktin, set w | w in pktin.data :: w.chunk.data
    {
      && pktin.Valid() && pktin.capacity == pktin.size == |pktin.Contents()| >= HEAD
      && pktin.Contents()[HEAD..] == Row(cols) && |fields| == |cols|
      && forall i | 0 <= i < |cols| :: FieldRight(cols, i, fields[i])
    }

    constructor (pktin: PacketIn)
      ensures this.pktin == pktin && fields == []
    {
      this.pktin := pktin;
      fields := [];
    }

    /** ParseRowPacket: one pass over the packet finds the columns. */
    method ParseRowPacket(numColumns: nat, ghost cols: seq<Column>)
      requires pktin.Valid() && |pktin.Contents()| >= 4 && pktin.Contents()[4..] == Row(cols)
      requires numColumns == |cols| && AllReadable(cols)
      modifies this, pktin
      ensures Holds(cols)
    {
      hide Row, Encoded, Spans, Offset, TextStands, Flat, CursorAt, Total;
      PacketValues.PacketInShape(pktin);
      Whole(pktin);
      ghost var all := pktin.Contents();
      pktin.SkipTo(HEAD);
      var found := [];
      FirstOffset(cols);
      for column := 0 to numColumns
        invariant pktin.Valid() && pktin.Contents() == all && pktin.pos == Offset(cols, column)
        invariant |found| == column && forall i | 0 <= i < column :: FieldRight(cols, i, found[i])
      {
        var field := ParseColumn(cols, column, all);
        found := found + [field];
      }
      Whole(pktin);
      CursorInside(pktin.data, pktin.pos, pktin.posY);
      fields := found;
    }

    /** One round of the loop. */
    method ParseColumn(ghost cols: seq<Column>, ghost column: nat, ghost all: seq<byte>) returns (field: Field)
      requires pktin.Valid() && pktin.Contents() == all && column < |cols| && pktin.pos == Offset(cols, column)
      requires |all| >= HEAD && all[HEAD..] == Row(cols) && AllReadable(cols)
      modifies pktin
      ensures pktin.Valid() && pktin.Contents() == all && pktin.pos == Offset(cols, column + 1)
      ensures FieldRight(cols, column, field)
    {
      hide PacketIn.Valid, PacketIn.Contents, Row, Spans, Offset, VariableInteger;
      PacketValues.PacketInShape(pktin);
      ColumnAt(cols, column, all);
      ColumnParts(cols[column], all, pktin.pos);
      var bufferPos := pktin.pos;
      var flag := CurrentByte(pktin);
      if flag == 0xFB {
        field := Field(true, 0);
        Whole(pktin);
        pktin.SkipTo(pktin.pos + 1);
      } else {
        var len := ReadVariableInteger(pktin);
        field := Field(false, bufferPos);
        Whole(pktin);
        pktin.SkipTo(pktin.pos + len.value);
      }
    }

    /** GetString: any column, in any order, any number of times; a NULL column throws. */
    method GetString(column: nat, ghost cols: seq<Column>) returns (r: Read<seq<byte>>)
      requires Holds(cols) && column < |cols| && AllReadable(cols)
      modifies pktin
      ensures Holds(cols)
      ensures r == if cols[column].NullColumn? then NoMoreData else Got(cols[column].s)
    {
      hide PacketIn.Valid, PacketIn.Contents, Row, Encoded, Spans, Offset;
      if fields[column].isNull {
        return NoMoreData;
      }
      ghost var all := pktin.Contents();
      ColumnAt(cols, column, all);
      pktin.SkipTo(fields[column].bufferPos);
      r := ReadLengthEncodedString(pktin);
      Whole(pktin);
      assert TextStands(all, Offset(cols, column), cols[column].s);
    }

    method IsNull(column: nat, ghost cols: seq<Column>) returns (r: bool)
      requires Holds(cols) && column < |cols|
      ensures r == cols[column].NullColumn?
    {
      r := fields[column].isNull;
    }
  }

  ghost predicate FieldRight(cols: seq<Column>, i: nat, f: Field)
    requires i < |cols|
  {
    f.isNull == cols[i].NullColumn? && (!f.isNull ==> f.bufferPos == Offset(cols, i))
  }

  lemma Whole(pktin: PacketIn)
    requires pktin.Valid()
    ensures pktin.capacity == pktin.size == |pktin.Contents()|
  {
  }

  lemma FirstOffset(cols: seq<Column>)
    ensures Offset(cols, 0) == HEAD
  {
  }

  /** A column begins with its flag or with the length of its string. */
  lemma ColumnParts(c: Column, all: seq<byte>, p: nat)
    requires p + |Encoded(c)| <= |all| && all[p..p + |Encoded(c)|] == Encoded(c)
    ensures p < |all| && (all[p] == 0xFB <==> c.NullColumn?) && (c.NullColumn? ==> |Encoded(c)| == 1)
    ensures c.Text? ==>
      var n := |VariableInteger(|c.s|)|;
      && |Encoded(c)| == n + |c.s| && p + n <= |all| && all[p..p + n] == VariableInteger(|c.s|)
  {
    hide VariableInteger;
    assert all[p] == all[p..p + |Encoded(c)|][0];
    if c.Text? {
      TextParts(all, p, c.s);
      assert Encoded(c)[0] == VariableInteger(|c.s|)[0];
    }
  }
}
