/** The parser of result data reads a block back. */
module BatchParsing {

  import opened Wrappers
  import opened BatchBlocks
  import opened BatchData

  /** A reader over some bytes; a read beyond the end fails and leaves it where it is. */
  class SliceReader {
    const data: Bytes
    var pos: nat

    constructor (data: Bytes)
      ensures this.data == data && pos == 0
    {
      this.data, pos := data, 0;
    }

    method ReadBytes(n: nat) returns (r: Option<Bytes>)
      requires pos <= |data|
      modifies this
      ensures pos <= |data|
      ensures r.Some? <==> old(pos) + n <= |data|
      ensures r.Some? ==> r.value == data[old(pos)..old(pos) + n] && pos == old(pos) + n
      ensures r.None? ==> pos == old(pos)
    {
      if |data| - pos < n {
        return None;
      }
      r := Some(data[pos..pos + n]);
      pos := pos + n;
    }

    method ReadU16() returns (r: Option<nat>)
      requires pos <= |data|
      modifies this
      ensures pos <= |data|
      ensures r.Some? <==> old(pos) + 2 <= |data|
      ensures r.Some? ==> r.value == FromU16(data[old(pos)..old(pos) + 2]) && pos == old(pos) + 2
    {
      var b := ReadBytes(2);
      return if b.Some? then Some(FromU16(b.value)) else None;
    }

    method ReadU32() returns (r: Option<nat>)
      requires pos <= |data|
      modifies this
      ensures pos <= |data|
      ensures r.Some? <==> old(pos) + 4 <= |data|
      ensures r.Some? ==> r.value == FromU32(data[old(pos)..old(pos) + 4]) && pos == old(pos) + 4
    {
      var b := ReadBytes(4);
      return if b.Some? then Some(FromU32(b.value)) else None;
    }
  }

  datatype FetchBlock = FetchBlock(rowCount: nat, columnCount: nat, indicatorSize: nat, rowSize: nat,
                                   nulls: seq<bool>, data: Bytes)

  /** The null flag of an indicator. */
  predicate IsNull(indicator: Bytes) { |indicator| >= 2 && FromU16(indicator[..2]) == 0xFFFF }

  /** The null flags of consecutive indicators. */
  function NullsAt(data: Bytes, at: nat, count: nat, size: nat): (r: seq<bool>)
    requires at + count * size <= |data|
    ensures |r| == count
    decreases count
  {
    if count == 0 then []
    else
      Step(count, size);
      NullsAt(data, at, count - 1, size) + [IsNull(data[at + (count - 1) * size..at + count * size])]
  }

  lemma Step(count: nat, size: nat)
    requires count > 0
    ensures (count - 1) * size + size == count * size
  {}

  function Times(a: nat, b: nat): nat { a * b }

  /** The indicators of a block, when there are so many bytes. */
  function GridNulls(data: Bytes, at: nat, rows: nat, columns: nat, size: nat): seq<bool>
    requires at + Times(Times(rows, columns), size) <= |data|
  {
    NullsAt(data, at, rows * columns, size)
  }

  /** The part after the header. */
  function BodyAt(data: Bytes, at: nat, rows: nat, columns: nat, size: nat, rowSize: nat): Option<FetchBlock>
    requires at <= |data|
  {
    var body := at + Times(Times(rows, columns), size);
    if body + Times(rows, rowSize) > |data| then None
    else Some(FetchBlock(rows, columns, size, rowSize, GridNulls(data, at, rows, columns, size),
                         data[body..body + Times(rows, rowSize)]))
  }

  method ParseResultDataBlock(r: SliceReader, rowCount: nat, columnCount: nat, indicatorSize: nat, rowSize: nat)
    returns (block: Option<FetchBlock>)
    requires r.pos <= |r.data|
    modifies r
    ensures block == BodyAt(r.data, old(r.pos), rowCount, columnCount, indicatorSize, rowSize)
  {
    hide Times, GridNulls;
    var nulls := ReadGrid(r, rowCount, columnCount, indicatorSize);
    if nulls.None? {
      return None;
    }
    var data := r.ReadBytes(Times(rowCount, rowSize));
    if data.None? {
      return None;
    }
    return Some(FetchBlock(rowCount, columnCount, indicatorSize, rowSize, nulls.value, data.value));
  }

  method ReadGrid(r: SliceReader, rowCount: nat, columnCount: nat, size: nat) returns (nulls: Option<seq<bool>>)
    requires r.pos <= |r.data|
    modifies r
    ensures r.pos <= |r.data|
    ensures nulls.Some? <==> old(r.pos) + Times(Times(rowCount, columnCount), size) <= |r.data|
    ensures nulls.Some? ==> r.pos == old(r.pos) + Times(Times(rowCount, columnCount), size)
    ensures nulls.Some? ==> nulls.value == GridNulls(r.data, old(r.pos), rowCount, columnCount, size)
  {
    hide NullsAt;
    nulls := ReadNulls(r, rowCount, columnCount, size);
  }

  /** Row by row and column by column. */
  method ReadNulls(r: SliceReader, rowCount: nat, columnCount: nat, size: nat) returns (nulls: Option<seq<bool>>)
    requires r.pos <= |r.data|
    modifies r
    ensures r.pos <= |r.data|
    ensures nulls.Some? <==> old(r.pos) + rowCount * columnCount * size <= |r.data|
    ensures nulls.Some? ==> r.pos == old(r.pos) + rowCount * columnCount * size
    ensures nulls.Some? ==> nulls.value == NullsAt(r.data, old(r.pos), rowCount * columnCount, size)
  {
    hide NullsAt, IsNull;
    ghost var at := r.pos;
    var flags: seq<bool> := [];
    ghost var k: nat, used: nat := 0, 0;
    NoNulls(r.data, at, size);
    for row := 0 to rowCount
      invariant k == row * columnCount && used == k * size && r.pos == at + used <= |r.data|
      invariant flags == NullsAt(r.data, at, k, size)
    {
      for col := 0 to columnCount
        invariant k == row * columnCount + col && used == k * size && r.pos == at + used <= |r.data|
        invariant flags == NullsAt(r.data, at, k, size)
      {
        InGrid(row, rowCount, col, columnCount, size);
        Step(k + 1, size);
        var isNull := ReadNull(r, size);
        if isNull.None? {
          return None;
        }
        NullsMore(r.data, at, k, size);
        flags := flags + [isNull.value];
        k, used := k + 1, used + size;
      }
      Step(row + 1, columnCount);
    }
    return Some(flags);
  }

  method ReadNull(r: SliceReader, size: nat) returns (isNull: Option<bool>)
    requires r.pos <= |r.data|
    modifies r
    ensures r.pos <= |r.data|
    ensures isNull.Some? <==> old(r.pos) + size <= |r.data|
    ensures isNull.Some? ==> r.pos == old(r.pos) + size && isNull.value == IsNull(r.data[old(r.pos)..r.pos])
  {
    if size == 0 {
      return Some(false);
    }
    var indicator := r.ReadBytes(size);
    return if indicator.None? then None else Some(IsNull(indicator.value));
  }

  lemma NoNulls(data: Bytes, at: nat, size: nat)
    requires at <= |data|
    ensures NullsAt(data, at, 0, size) == []
  {}

  lemma NullsMore(data: Bytes, at: nat, k: nat, size: nat)
    requires at + (k + 1) * size <= |data| && k * size + size == (k + 1) * size
    ensures NullsAt(data, at, k + 1, size) ==
            NullsAt(data, at, k, size) + [IsNull(data[at + k * size..at + (k + 1) * size])]
  {}

  /** A cell of the grid comes before the end of the grid. */
  lemma InGrid(row: nat, rows: nat, col: nat, columns: nat, size: nat)
    requires row < rows && col < columns
    ensures (row * columns + col + 1) * size <= rows * columns * size
  {
    var k := row * columns + col + 1;
    assert k <= (row + 1) * columns;
    assert (row + 1) * columns <= rows * columns;
    Order(k, rows * columns, size);
  }

  lemma Order(a: nat, b: nat, k: nat)
    requires a <= b
    ensures a * k <= b * k
  {}

  /** The whole payload, in either layout. */
  function ParsedPayload(ext: bool, data: Bytes): Option<FetchBlock>
  {
    if |data| < HeaderSize(ext) then None
    else
      BodyAt(data, HeaderSize(ext), FromU32(data[4..8]), FromU16(data[8..10]), FromU16(data[10..12]),
             if ext then FromU32(data[16..20]) else FromU16(data[12..14]))
  }

  method ParseResultData(ext: bool, payload: Bytes) returns (block: Option<FetchBlock>)
    ensures block == ParsedPayload(ext, payload)
  {
    hide BodyAt;
    var r := new SliceReader(payload);
    var token := r.ReadU32();
    if token.None? { return None; }
    var rowCount := r.ReadU32();
    if rowCount.None? { return None; }
    var columnCount := r.ReadU16();
    if columnCount.None? { return None; }
    var indicatorSize := r.ReadU16();
    if indicatorSize.None? { return None; }
    var rowSize: Option<nat>;
    if ext {
      var reserved := r.ReadU32();
      if reserved.None? { return None; }
      rowSize := r.ReadU32();
    } else {
      rowSize := r.ReadU16();
    }
    if rowSize.None? { return None; }
    block := ParseResultDataBlock(r, rowCount.value, columnCount.value, indicatorSize.value, rowSize.value);
  }

  // ------------------------------------------------------------------ reading back what was built

  /** The null flags of a row, and of all rows in turn. */
  function Nulls(row: Row): seq<bool> { seq(|row|, i requires 0 <= i < |row| => row[i].isNull) }

  function AllNulls(rows: seq<Row>): seq<bool>
  {
    if rows == [] then [] else AllNulls(rows[..|rows| - 1]) + Nulls(rows[|rows| - 1])
  }

  function FlagOf(isNull: bool): Bytes { if isNull then [0xFF, 0xFF] else [0, 0] }

  function FlagsOf(nulls: seq<bool>): Bytes
  {
    if nulls == [] then [] else FlagsOf(nulls[..|nulls| - 1]) + FlagOf(nulls[|nulls| - 1])
  }

  lemma FlagsOfMore(nulls: seq<bool>, isNull: bool)
    ensures FlagsOf(nulls + [isNull]) == FlagsOf(nulls) + FlagOf(isNull)
  {
    assert (nulls + [isNull])[..|nulls|] == nulls;
  }

  lemma NoFlags()
    ensures FlagsOf([]) == []
  {}

  lemma SplitLast<T>(a: seq<T>, b: seq<T>)
    requires b != []
    ensures b == b[..|b| - 1] + [b[|b| - 1]]
    ensures a + b == (a + b[..|b| - 1]) + [b[|b| - 1]]
  {}

  lemma {:induction false} FlagsOfConcat(a: seq<bool>, b: seq<bool>)
    ensures FlagsOf(a + b) == FlagsOf(a) + FlagsOf(b)
  {
    hide FlagsOf, FlagOf;
    if b == [] {
      NoFlags();
      assert a + b == a;
    } else {
      var front, last := b[..|b| - 1], b[|b| - 1];
      FlagsOfConcat(a, front);
      FlagsOfMore(front, last);
      FlagsOfMore(a + front, last);
      SplitLast(a, b);
    }
  }

  lemma {:induction false} RowFlags(row: Row)
    ensures Flags(row) == FlagsOf(Nulls(row))
  {
    if row != [] {
      var front, last := row[..|row| - 1], row[|row| - 1];
      RowFlags(front);
      FlagsOfMore(Nulls(front), last.isNull);
      hide FlagsOf;
      assert Nulls(row) == Nulls(front) + [last.isNull];
    }
  }

  lemma {:induction false} BlockFlags(rows: seq<Row>)
    ensures AllFlags(rows) == FlagsOf(AllNulls(rows))
  {
    if rows != [] {
      hide Flags, Nulls, FlagsOf;
      var front, last := rows[..|rows| - 1], rows[|rows| - 1];
      BlockFlags(front);
      RowFlags(last);
      FlagsOfConcat(AllNulls(front), Nulls(last));
    } else {
      assert FlagsOf([]) == [];
    }
  }

  lemma {:induction false} FlagsOfLength(nulls: seq<bool>)
    ensures |FlagsOf(nulls)| == 2 * |nulls|
  {
    if nulls != [] {
      FlagsOfLength(nulls[..|nulls| - 1]);
    }
  }

  /** Indicators read back as the null flags they were made from. */
  lemma {:induction false} NullsRead(before: Bytes, nulls: seq<bool>, after: Bytes)
    ensures |before| + |nulls| * 2 <= |before + FlagsOf(nulls) + after|
    ensures NullsAt(before + FlagsOf(nulls) + after, |before|, |nulls|, 2) == nulls
  {
    hide FlagsOf, NullsAt, IsNull, FlagOf;
    FlagsOfLength(nulls);
    if nulls == [] {
      NoNulls(before + FlagsOf(nulls) + after, |before|, 2);
    } else {
      var n := |nulls| - 1;
      var front, last := nulls[..n], nulls[n];
      SplitLast([], nulls);
      FlagsOfMore(front, last);
      FlagsOfLength(front);
      NullsRead(before, front, FlagOf(last) + after);
      FlagOfFacts(last);
      Regrouped(before, FlagsOf(front), FlagOf(last), after);
      FlagPiece(before + FlagsOf(front), FlagOf(last), after);
      NullsMore(before + FlagsOf(nulls) + after, |before|, n, 2);
    }
  }

  lemma Regrouped(a: Bytes, b: Bytes, c: Bytes, d: Bytes)
    ensures a + (b + c) + d == a + b + (c + d) == a + b + c + d
  {}

  lemma FlagPiece(a: Bytes, flag: Bytes, c: Bytes)
    requires |flag| == 2
    ensures (a + flag + c)[|a|..|a| + 2] == flag
  {}

  lemma FlagOfFacts(isNull: bool)
    ensures |FlagOf(isNull)| == 2 && IsNull(FlagOf(isNull)) == isNull
  {}

  lemma AllRawMore(rows: seq<Row>, row: Row)
    ensures AllRaw(rows + [row]) == AllRaw(rows) + Raw(row)
  {
    assert (rows + [row])[..|rows|] == rows;
  }

  lemma {:induction false} AllRawConcat(a: seq<Row>, b: seq<Row>)
    ensures AllRaw(a + b) == AllRaw(a) + AllRaw(b)
  {
    if b == [] {
      assert a + b == a;
    } else {
      hide AllRaw, Raw;
      var front, last := b[..|b| - 1], b[|b| - 1];
      AllRawConcat(a, front);
      AllRawMore(front, last);
      AllRawMore(a + front, last);
      SplitLast(a, b);
    }
  }

  /** The bytes of each row, where a reader looks for them. */
  lemma RowRead(rows: seq<Row>, r: nat)
    requires rows != [] && Uniform(rows) && r < |rows|
    ensures var size := RowBytes(rows[0]);
            r * size + size <= |AllRaw(rows)| && AllRaw(rows)[r * size..r * size + size] == Raw(rows[r])
  {
    hide AllRaw, Raw, Uniform, RowBytes;
    var before, after := rows[..r], rows[r + 1..];
    assert rows == before + [rows[r]] + after;
    AllRawConcat(before + [rows[r]], after);
    AllRawMore(before, rows[r]);
    UniformLengths(rows, r);
    UniformRow(rows, r);
    RawLength(rows[r]);
    Piece(AllRaw(before), Raw(rows[r]), AllRaw(after));
  }

  lemma Piece(a: Bytes, b: Bytes, c: Bytes)
    ensures (a + b + c)[|a|..|a| + |b|] == b
  {}

  /** The header gives back the numbers it was made from. */
  lemma HeaderRead(ext: bool, count: nat, columns: nat, rowSize: nat, rest: Bytes)
    requires count < 0x1_0000_0000 && columns <= 0xFFFF && rowSize < (if ext then 0x1_0000_0000 else 0x1_0000)
    ensures var data := Header(ext, count, columns, rowSize) + rest;
            && |data| == HeaderSize(ext) + |rest| && data[HeaderSize(ext)..] == rest
            && FromU32(data[4..8]) == count && FromU16(data[8..10]) == columns && FromU16(data[10..12]) == 2
            && (if ext then FromU32(data[16..20]) else FromU16(data[12..14])) == rowSize
  {
    U32Back(count);
    U16Back(columns);
    U16Back(2);
    U16Size(columns); U16Size(2); U16Size(rowSize); U32Size(1); U32Size(count); U32Size(rowSize);
    if ext {
      U32Back(rowSize);
    } else {
      U16Back(rowSize);
    }
    hide U16, U32, FromU16, FromU32;
    var data := Header(ext, count, columns, rowSize) + rest;
    assert data[4..8] == U32(count);
    assert data[8..10] == U16(columns);
    assert data[10..12] == U16(2);
    if ext {
      assert data[16..20] == U32(rowSize);
    } else {
      assert data[12..14] == U16(rowSize);
    }
  }

  /** Parsing a built block returns every null flag and the bytes of every row, one row after the other. */
  lemma ParseBuilt(ext: bool, rows: seq<Row>)
    requires rows != [] && Uniform(rows) && |rows| < 0x1_0000_0000 && |rows[0]| <= 0xFFFF
    requires RowBytes(rows[0]) < (if ext then 0x1_0000_0000 else 0x1_0000)
    ensures ParsedPayload(ext, Payload(ext, rows)) ==
            Some(FetchBlock(|rows|, |rows[0]|, 2, RowBytes(rows[0]), AllNulls(rows), AllRaw(rows)))
  {
    var columns, size := |rows[0]|, RowBytes(rows[0]);
    hide AllFlags, AllRaw, AllNulls, Uniform, Header, FromU16, FromU32, NullsAt, RowBytes, BodyAt;
    hide HeaderSize;
    var header := Header(ext, |rows|, columns, size);
    HeaderLength(ext, |rows|, columns, size);
    PayloadIs(header, AllFlags(rows), AllRaw(rows));
    HeaderRead(ext, |rows|, columns, size, AllFlags(rows) + AllRaw(rows));
    BodyBuilt(header, rows);
  }

  lemma PayloadIs(header: Bytes, flags: Bytes, raw: Bytes)
    ensures header + flags + raw == header + (flags + raw)
  {}

  lemma BodyBuilt(header: Bytes, rows: seq<Row>)
    requires rows != [] && Uniform(rows)
    ensures BodyAt(header + AllFlags(rows) + AllRaw(rows), |header|, |rows|, |rows[0]|, 2, RowBytes(rows[0])) ==
            Some(FetchBlock(|rows|, |rows[0]|, 2, RowBytes(rows[0]), AllNulls(rows), AllRaw(rows)))
  {
    hide AllFlags, AllRaw, AllNulls, Uniform, RowBytes, FlagsOf, NullsAt;
    BlockFlags(rows);
    AllPlace(rows);
    FlagsOfLength(AllNulls(rows));
    NullsRead(header, AllNulls(rows), AllRaw(rows));
    BodyRead(header, AllFlags(rows), AllRaw(rows), |rows|, |rows[0]|, RowBytes(rows[0]));
  }

  lemma AllPlace(rows: seq<Row>)
    requires rows != [] && Uniform(rows)
    ensures |AllFlags(rows)| == |rows| * |rows[0]| * 2 && |AllRaw(rows)| == |rows| * RowBytes(rows[0])
  {
    hide AllFlags, AllRaw, Uniform, RowBytes;
    UniformLengths(rows, |rows|);
    assert rows[..|rows|] == rows;
    Regroup(|rows|, |rows[0]|);
  }

  lemma Regroup(n: nat, columns: nat)
    ensures n * (2 * columns) == n * columns * 2
  {}

  lemma BodyRead(header: Bytes, flags: Bytes, raw: Bytes, count: nat, columns: nat, size: nat)
    requires |flags| == count * columns * 2 && |raw| == count * size
    ensures BodyAt(header + flags + raw, |header|, count, columns, 2, size) ==
            Some(FetchBlock(count, columns, 2, size, NullsAt(header + flags + raw, |header|, count * columns, 2), raw))
  {
    hide NullsAt;
    Piece(header + flags, raw, []);
    assert header + flags + raw + [] == header + flags + raw;
  }
}
