/** The blocks of a batch and their bytes, told place by place: what may travel together, where every number, null
    indicator and value stands, and what a reader makes of any bytes. */
module BatchLayout {

  import opened Wrappers
  import opened BatchBlocks
  import opened BatchData
  import opened BatchParsing

  // ------------------------------------------------------------------ what may travel together

  /** The bytes of all values of some rows. */
  function TotalBytes(rows: seq<Row>): nat
  {
    if rows == [] then 0 else RowBytes(rows[0]) + TotalBytes(rows[1..])
  }

  /** Same columns of the same lengths. */
  predicate Alike(a: Row, b: Row)
  {
    |a| == |b| && forall c :: 0 <= c < |a| ==> |a[c].raw| == |b[c].raw|
  }

  lemma {:induction false} TotalOfAlike(rows: seq<Row>, row: Row)
    requires forall i :: 0 <= i < |rows| ==> SameShape(row, rows[i])
    ensures TotalBytes(rows) == |rows| * RowBytes(row)
  {
    if rows != [] {
      SameBytes(row, rows[0]);
      hide SameShape, RowBytes;
      TotalOfAlike(rows[1..], row);
      Step(|rows|, RowBytes(row));
    }
  }

  /** A block has at most 32000 rows, all alike, and at most one MiB of values unless it is a single row. */
  lemma BlockMeans(rows: seq<Row>, from: nat, to: nat)
    requires from < to <= |rows|
    ensures BlockOk(rows, from, to) <==>
            && to - from <= 32000
            && (forall i :: from <= i < to ==> Alike(rows[from], rows[i]))
            && (to - from == 1 || TotalBytes(rows[from..to]) <= 1024 * 1024)
  {
    assert forall i :: from <= i < to ==> (Alike(rows[from], rows[i]) <==> SameShape(rows[from], rows[i]));
    if forall i :: from <= i < to ==> SameShape(rows[from], rows[i]) {
      TotalOfAlike(rows[from..to], rows[from]);
    }
    hide SameShape, RowBytes, TotalBytes, Alike;
  }

  /** The original layout is used exactly when the server described it and 16 bits hold the number of columns and
      the bytes of a row. */
  lemma OriginalMeans(original: bool, row: Row)
    ensures Extended(original, row) <==> !(original && |row| < 65536 && RowBytes(row) < 65536)
  {}

  // ------------------------------------------------------------------ numbers

  function BigEndian(b: Bytes): nat
  {
    if b == [] then 0 else BigEndian(b[..|b| - 1]) * 256 + (b[|b| - 1] as int)
  }

  lemma Two(b: Bytes)
    requires |b| == 2
    ensures FromU16(b) == BigEndian(b)
  {
    assert b[..1][..0] == [] && BigEndian(b[..1]) == b[0] as int;
  }

  lemma Four(b: Bytes)
    requires |b| == 4
    ensures FromU32(b) == BigEndian(b)
  {
    var c := b[..3];
    assert c[..2] == b[..2];
    Two(b[..2]);
    assert BigEndian(c) == BigEndian(c[..2]) * 256 + (b[2] as int);
    assert BigEndian(b) == BigEndian(c) * 256 + (b[3] as int);
  }

  // ------------------------------------------------------------------ the bytes of a block

  lemma AllFlagsMore(rows: seq<Row>, row: Row)
    ensures AllFlags(rows + [row]) == AllFlags(rows) + Flags(row)
  {
    assert (rows + [row])[..|rows|] == rows;
  }

  lemma {:induction false} AllFlagsConcat(a: seq<Row>, b: seq<Row>)
    ensures AllFlags(a + b) == AllFlags(a) + AllFlags(b)
  {
    if b == [] {
      assert a + b == a;
    } else {
      hide AllFlags, Flags;
      var front, last := b[..|b| - 1], b[|b| - 1];
      AllFlagsConcat(a, front);
      AllFlagsMore(front, last);
      AllFlagsMore(a + front, last);
      SplitLast(a, b);
    }
  }

  lemma {:induction false} FlagInRow(row: Row, c: nat)
    requires c < |row|
    ensures 2 * c + 2 <= |Flags(row)| && Flags(row)[2 * c..2 * c + 2] == Flag(row[c])
    decreases |row|
  {
    var n := |row| - 1;
    FlagsLength(row[..n]);
    FlagsLength(row);
    if c < n {
      FlagInRow(row[..n], c);
    }
  }

  lemma {:induction false} RawInRow(row: Row, c: nat)
    requires c < |row|
    ensures RowBytes(row[..c]) + |row[c].raw| <= |Raw(row)|
    ensures Raw(row)[RowBytes(row[..c])..RowBytes(row[..c]) + |row[c].raw|] == row[c].raw
    decreases |row|
  {
    var n := |row| - 1;
    RawLength(row[..n]);
    if c < n {
      RawInRow(row[..n], c);
      assert row[..n][..c] == row[..c];
    }
  }

  /** The indicator of a value in the indicators of all rows. */
  lemma FlagInBlock(rows: seq<Row>, r: nat, c: nat)
    requires rows != [] && Uniform(rows) && r < |rows| && c < |rows[r]|
    ensures FlagIn(AllFlags(rows), |rows[0]|, rows[r][c], r, c)
  {
    hide AllFlags, Flags, Flag, RowBytes, Uniform;
    UniformRow(rows, r);
    var before, after := rows[..r], rows[r + 1..];
    assert rows == before + [rows[r]] + after;
    AllFlagsConcat(before + [rows[r]], after);
    AllFlagsMore(before, rows[r]);
    UniformLengths(rows, r);
    FlagInRow(rows[r], c);
    FlagPlace(0, r, |rows[0]|, c);
    Within(AllFlags(before), Flags(rows[r]), AllFlags(after), 2 * c, 2);
  }

  predicate FlagIn(flags: Bytes, columns: nat, b: Binding, r: nat, c: nat)
  {
    var at := (r * columns + c) * 2;
    at + 2 <= |flags| && flags[at..at + 2] == Flag(b)
  }

  lemma Within(a: Bytes, b: Bytes, c: Bytes, at: nat, n: nat)
    requires at + n <= |b|
    ensures (a + b + c)[|a| + at..|a| + at + n] == b[at..at + n]
  {}

  /** The value in the values of all rows. */
  lemma ValueInBlock(rows: seq<Row>, r: nat, c: nat)
    requires rows != [] && Uniform(rows) && r < |rows| && c < |rows[r]|
    ensures ValueAt(AllRaw(rows), 0, RowBytes(rows[0]), rows[r], r, c)
  {
    hide AllRaw, Raw, RowBytes, Uniform;
    RowRead(rows, r);
    RawInRow(rows[r], c);
    UniformRow(rows, r);
    RawLength(rows[r]);
    var size := RowBytes(rows[0]);
    SliceOfSlice(AllRaw(rows), r * size, r * size + size, RowBytes(rows[r][..c]), |rows[r][c].raw|);
  }

  lemma SliceOfSlice(s: Bytes, lo: nat, hi: nat, at: nat, n: nat)
    requires lo <= hi <= |s| && at + n <= hi - lo
    ensures s[lo..hi][at..at + n] == s[lo + at..lo + at + n]
  {
    var a, b := s[lo..hi][at..at + n], s[lo + at..lo + at + n];
    assert |a| == |b|;
    forall k | 0 <= k < |a| ensures a[k] == b[k] {
      assert a[k] == s[lo..hi][at + k];
    }
    assert a == b;
  }

  /** The header: the token 1, the numbers of rows and columns, the size of an indicator and the bytes of a row. */
  predicate HeaderAt(p: Bytes, ext: bool, rows: nat, columns: nat, rowSize: nat)
  {
    && |p| >= (if ext then 20 else 14)
    && BigEndian(p[0..4]) == 1 && BigEndian(p[4..8]) == rows
    && BigEndian(p[8..10]) == columns && BigEndian(p[10..12]) == 2
    && if ext then BigEndian(p[12..16]) == 0 && BigEndian(p[16..20]) == rowSize else BigEndian(p[12..14]) == rowSize
  }

  lemma HeaderBytes(ext: bool, count: nat, columns: nat, rowSize: nat, rest: Bytes)
    requires count < 0x1_0000_0000 && columns <= 0xFFFF && rowSize < (if ext then 0x1_0000_0000 else 0x1_0000)
    ensures HeaderAt(Header(ext, count, columns, rowSize) + rest, ext, count, columns, rowSize)
  {
    hide U16, U32, FromU16, FromU32, BigEndian;
    var p := Header(ext, count, columns, rowSize) + rest;
    HeaderRead(ext, count, columns, rowSize, rest);
    U32Size(1); U32Size(count); U32Size(rowSize); U16Size(columns); U16Size(2); U16Size(rowSize);
    U32Back(1);
    assert p[0..4] == U32(1);
    Four(p[0..4]);
    Four(p[4..8]);
    Two(p[8..10]);
    Two(p[10..12]);
    if ext {
      assert p[12..16] == [0, 0, 0, 0];
      ZeroNumber();
      Four(p[16..20]);
    } else {
      Two(p[12..14]);
    }
  }

  lemma ZeroNumber()
    ensures BigEndian([0, 0, 0, 0]) == 0
  {
    Four([0, 0, 0, 0]);
    hide BigEndian;
  }

  /** The header, an indicator for every value, FFFF for null and 0000 if not, and the values, row by row and column by
      column. */
  ghost predicate BlockBytes(p: Bytes, ext: bool, rows: seq<Row>, columns: nat, rowSize: nat)
  {
    var h := if ext then 20 else 14;
    var values := h + |rows| * columns * 2;
    && HeaderAt(p, ext, |rows|, columns, rowSize)
    && |p| == values + |rows| * rowSize
    && (forall r: nat, c: nat :: r < |rows| && c < |rows[r]| ==> FlagAt(p, h, columns, rows[r][c], r, c))
    && (forall r: nat, c: nat :: r < |rows| && c < |rows[r]| ==> ValueAt(p, values, rowSize, rows[r], r, c))
  }

  /** The data of a block. */
  lemma BlockLayout(ext: bool, rows: seq<Row>)
    requires rows != [] && Uniform(rows) && |rows| < 0x1_0000_0000 && |rows[0]| <= 0xFFFF
    requires RowBytes(rows[0]) < (if ext then 0x1_0000_0000 else 0x1_0000)
    ensures BlockBytes(Payload(ext, rows), ext, rows, |rows[0]|, RowBytes(rows[0]))
  {
    hide AllFlags, AllRaw, Header, RowBytes, Uniform, Flag, BigEndian, HeaderAt, FlagAt, ValueAt, Payload;
    var columns, size := |rows[0]|, RowBytes(rows[0]);
    PayloadHeader(ext, rows);
    AllPlace(rows);
    var h := if ext then 20 else 14;
    var values := h + |AllFlags(rows)|;
    forall r: nat, c: nat | r < |rows| && c < |rows[r]|
      ensures FlagAt(Payload(ext, rows), h, columns, rows[r][c], r, c)
    {
      CellPlaced(ext, rows, h, values, r, c);
    }
    forall r: nat, c: nat | r < |rows| && c < |rows[r]|
      ensures ValueAt(Payload(ext, rows), values, size, rows[r], r, c)
    {
      CellPlaced(ext, rows, h, values, r, c);
    }
  }

  lemma PayloadHeader(ext: bool, rows: seq<Row>)
    requires rows != [] && Uniform(rows) && |rows| < 0x1_0000_0000 && |rows[0]| <= 0xFFFF
    requires RowBytes(rows[0]) < (if ext then 0x1_0000_0000 else 0x1_0000)
    ensures HeaderAt(Payload(ext, rows), ext, |rows|, |rows[0]|, RowBytes(rows[0]))
    ensures |Payload(ext, rows)| ==
            (if ext then 20 else 14) + |rows| * |rows[0]| * 2 + |rows| * RowBytes(rows[0])
  {
    hide AllFlags, AllRaw, Header, RowBytes, Uniform, BigEndian, HeaderAt;
    var columns, size := |rows[0]|, RowBytes(rows[0]);
    HeaderLength(ext, |rows|, columns, size);
    PayloadIs(Header(ext, |rows|, columns, size), AllFlags(rows), AllRaw(rows));
    HeaderBytes(ext, |rows|, columns, size, AllFlags(rows) + AllRaw(rows));
    AllPlace(rows);
  }

  lemma CellPlaced(ext: bool, rows: seq<Row>, h: nat, values: nat, r: nat, c: nat)
    requires rows != [] && Uniform(rows) && r < |rows| && c < |rows[r]|
    requires h == (if ext then 20 else 14) && values == h + |AllFlags(rows)|
    ensures FlagAt(Payload(ext, rows), h, |rows[0]|, rows[r][c], r, c)
    ensures ValueAt(Payload(ext, rows), values, RowBytes(rows[0]), rows[r], r, c)
  {
    hide AllFlags, AllRaw, Header, RowBytes, Uniform, Flag, FlagAt, FlagIn, ValueAt;
    var flags, raw := AllFlags(rows), AllRaw(rows);
    var header := Header(ext, |rows|, |rows[0]|, RowBytes(rows[0]));
    HeaderLength(ext, |rows|, |rows[0]|, RowBytes(rows[0]));
    FlagInBlock(rows, r, c);
    ValueInBlock(rows, r, c);
    FlagPlaced(header, flags, raw, |rows[0]|, rows[r][c], r, c);
    ValuePlaced(header + flags, raw, RowBytes(rows[0]), rows[r], r, c);
  }

  predicate FlagAt(p: Bytes, h: nat, columns: nat, b: Binding, r: nat, c: nat)
  {
    var at := h + (r * columns + c) * 2;
    at + 2 <= |p| && p[at] == p[at + 1] == if b.isNull then 0xFF else 0
  }

  predicate ValueAt(p: Bytes, values: nat, rowSize: nat, row: Row, r: nat, c: nat)
    requires c < |row|
  {
    var at := values + r * rowSize + RowBytes(row[..c]);
    at + |row[c].raw| <= |p| && p[at..at + |row[c].raw|] == row[c].raw
  }

  lemma FlagPlaced(header: Bytes, flags: Bytes, raw: Bytes, columns: nat, b: Binding, r: nat, c: nat)
    requires FlagIn(flags, columns, b, r, c)
    ensures FlagAt(header + flags + raw, |header|, columns, b, r, c)
  {
    var at := (r * columns + c) * 2;
    var p := header + flags + raw;
    assert p[|header| + at] == flags[at] == flags[at..at + 2][0];
    assert p[|header| + at + 1] == flags[at + 1] == flags[at..at + 2][1];
  }

  lemma ValuePlaced(front: Bytes, raw: Bytes, rowSize: nat, row: Row, r: nat, c: nat)
    requires c < |row|
    requires ValueAt(raw, 0, rowSize, row, r, c)
    ensures ValueAt(front + raw, |front|, rowSize, row, r, c)
  {
    hide RowBytes;
    var at := r * rowSize + RowBytes(row[..c]);
    var n := |row[c].raw|;
    Within(front, raw, [], at, n);
    assert front + raw + [] == front + raw;
  }

  // ------------------------------------------------------------------ reading any bytes

  lemma {:induction false} NullIndicator(data: Bytes, at: nat, count: nat, size: nat, k: nat)
    requires at + count * size <= |data| && k < count
    ensures at + k * size + size <= |data|
    ensures NullsAt(data, at, count, size)[k] <==>
            size >= 2 && data[at + k * size] == 0xFF && data[at + k * size + 1] == 0xFF
    decreases count
  {
    Step(count, size);
    var n := count - 1;
    if k == n {
      Indicator(data, at + n * size, size);
    } else {
      NullIndicator(data, at, n, size, k);
    }
  }

  lemma Indicator(data: Bytes, at: nat, size: nat)
    requires at + size <= |data|
    ensures IsNull(data[at..at + size]) <==> size >= 2 && data[at] == 0xFF && data[at + 1] == 0xFF
  {
    if size >= 2 {
      var b := data[at..at + size];
      assert b[..2] == [data[at], data[at + 1]];
    }
  }

  /** What a reader makes of any payload: nothing when it is shorter than its header says, and else the numbers of the
      header, a flag for every indicator that begins with FFFF, and the bytes of the rows. */
  lemma PayloadReads(ext: bool, data: Bytes)
    ensures |data| < (if ext then 20 else 14) ==> ParsedPayload(ext, data).None?
    ensures |data| >= (if ext then 20 else 14) ==>
              var h := if ext then 20 else 14;
              BodyReads(data, h, BigEndian(data[4..8]), BigEndian(data[8..10]), BigEndian(data[10..12]),
                        BigEndian(if ext then data[16..20] else data[12..14]), ParsedPayload(ext, data))
  {
    hide BodyReads, BodyAt, BigEndian, FromU16, FromU32;
    if |data| >= (if ext then 20 else 14) {
      Four(data[4..8]);
      Two(data[8..10]);
      Two(data[10..12]);
      if ext {
        Four(data[16..20]);
      } else {
        Two(data[12..14]);
      }
      BodyMeans(data, if ext then 20 else 14, BigEndian(data[4..8]), BigEndian(data[8..10]), BigEndian(data[10..12]),
                BigEndian(if ext then data[16..20] else data[12..14]));
    }
  }

  ghost predicate BodyReads(data: Bytes, h: nat, rows: nat, columns: nat, size: nat, rowSize: nat,
                            r: Option<FetchBlock>)
  {
    var values := h + rows * columns * size;
    && (r.Some? <==> values + rows * rowSize <= |data|)
    && (r.Some? ==>
          && r.value.rowCount == rows && r.value.columnCount == columns
          && r.value.indicatorSize == size && r.value.rowSize == rowSize
          && r.value.data == data[values..values + rows * rowSize]
          && |r.value.nulls| == rows * columns
          && forall k :: 0 <= k < rows * columns ==> NullRead(data, h + k * size, size, r.value.nulls[k]))
  }

  predicate NullRead(data: Bytes, at: nat, size: nat, isNull: bool)
  {
    at + size <= |data| && (isNull <==> size >= 2 && data[at] == 0xFF && data[at + 1] == 0xFF)
  }

  lemma BodyMeans(data: Bytes, h: nat, rows: nat, columns: nat, size: nat, rowSize: nat)
    requires h <= |data|
    ensures BodyReads(data, h, rows, columns, size, rowSize, BodyAt(data, h, rows, columns, size, rowSize))
  {
    hide NullsAt;
    var count := rows * columns;
    if h + count * size <= |data| {
      forall k: nat | k < count ensures NullRead(data, h + k * size, size, NullsAt(data, h, count, size)[k]) {
        NullIndicator(data, h, count, size, k);
      }
    }
  }
}
