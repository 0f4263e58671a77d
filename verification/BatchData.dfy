/** The parameter data of a block of rows on the wire, and the parser of result data, which has the same layout. */
module BatchData {

  import opened Wrappers
  import opened BatchBlocks

  type Bytes = seq<Byte>

  function U16(n: nat): Bytes { [n / 256 % 256, n % 256] }

  function U32(n: nat): Bytes { [n / 0x1000000 % 256, n / 0x10000 % 256, n / 256 % 256, n % 256] }

  function FromU16(b: Bytes): nat
    requires |b| == 2
  {
    (b[0] as int) * 256 + (b[1] as int)
  }

  function FromU32(b: Bytes): nat
    requires |b| == 4
  {
    (b[0] as int) * 0x1000000 + (b[1] as int) * 0x10000 + (b[2] as int) * 256 + (b[3] as int)
  }

  lemma U16Back(n: nat)
    requires n < 0x10000
    ensures FromU16(U16(n)) == n
  {}

  lemma U32Back(n: nat)
    requires n < 0x1_0000_0000
    ensures FromU32(U32(n)) == n
  {
    var a := n / 256;
    var b := a / 256;
    assert n / 0x10000 == b && n / 0x1000000 == b / 256;
  }

  // ------------------------------------------------------------------ the layout

  function Flag(b: Binding): Bytes { if b.isNull then [0xFF, 0xFF] else [0, 0] }

  function Flags(row: Row): Bytes
  {
    if row == [] then [] else Flags(row[..|row| - 1]) + Flag(row[|row| - 1])
  }

  function Raw(row: Row): Bytes
  {
    if row == [] then [] else Raw(row[..|row| - 1]) + row[|row| - 1].raw
  }

  function AllFlags(rows: seq<Row>): Bytes
  {
    if rows == [] then [] else AllFlags(rows[..|rows| - 1]) + Flags(rows[|rows| - 1])
  }

  function AllRaw(rows: seq<Row>): Bytes
  {
    if rows == [] then [] else AllRaw(rows[..|rows| - 1]) + Raw(rows[|rows| - 1])
  }

  function Header(ext: bool, count: nat, columns: nat, rowSize: nat): Bytes
  {
    U32(1) + U32(count) + U16(columns) + U16(2) + if ext then [0, 0, 0, 0] + U32(rowSize) else U16(rowSize)
  }

  function HeaderSize(ext: bool): nat { if ext then 20 else 14 }

  function Payload(ext: bool, rows: seq<Row>): Bytes
    requires rows != []
  {
    Header(ext, |rows|, |rows[0]|, RowBytes(rows[0])) + AllFlags(rows) + AllRaw(rows)
  }

  /** All rows have the shape of the first. */
  predicate Uniform(rows: seq<Row>)
  {
    forall i :: 0 <= i < |rows| ==> SameShape(rows[0], rows[i])
  }

  lemma {:induction false} FlagsLength(row: Row)
    ensures |Flags(row)| == 2 * |row|
  {
    if row != [] {
      FlagsLength(row[..|row| - 1]);
    }
  }

  lemma {:induction false} RowBytesLast(row: Row)
    requires row != []
    ensures RowBytes(row) == RowBytes(row[..|row| - 1]) + |row[|row| - 1].raw|
  {
    if |row| > 1 {
      RowBytesLast(row[1..]);
      assert row[1..][..|row| - 2] == row[..|row| - 1][1..];
    }
  }

  lemma {:induction false} RawLength(row: Row)
    ensures |Raw(row)| == RowBytes(row)
  {
    if row != [] {
      RawLength(row[..|row| - 1]);
      RowBytesLast(row);
    }
  }

  lemma Times(n: nat, k: nat)
    requires n > 0
    ensures n * k == (n - 1) * k + k
  {}

  lemma {:induction false} AllFlagsLength(rows: seq<Row>, size: nat)
    requires forall i :: 0 <= i < |rows| ==> |Flags(rows[i])| == size
    ensures |AllFlags(rows)| == |rows| * size
  {
    if rows != [] {
      hide Flags;
      AllFlagsLength(rows[..|rows| - 1], size);
      Times(|rows|, size);
    }
  }

  lemma {:induction false} AllRawLength(rows: seq<Row>, size: nat)
    requires forall i :: 0 <= i < |rows| ==> |Raw(rows[i])| == size
    ensures |AllRaw(rows)| == |rows| * size
  {
    if rows != [] {
      hide Raw;
      AllRawLength(rows[..|rows| - 1], size);
      Times(|rows|, size);
    }
  }

  lemma UniformRow(rows: seq<Row>, i: nat)
    requires Uniform(rows) && i < |rows|
    ensures |rows[i]| == |rows[0]| && RowBytes(rows[i]) == RowBytes(rows[0])
  {
    SameBytes(rows[0], rows[i]);
  }

  lemma UniformLengths(rows: seq<Row>, k: nat)
    requires Uniform(rows) && k <= |rows| && rows != []
    ensures |AllFlags(rows[..k])| == k * (2 * |rows[0]|) && |AllRaw(rows[..k])| == k * RowBytes(rows[0])
  {
    hide Flags, Raw, RowBytes;
    forall i | 0 <= i < k ensures |Flags(rows[i])| == 2 * |rows[0]| && |Raw(rows[i])| == RowBytes(rows[0]) {
      UniformRow(rows, i);
      FlagsLength(rows[i]);
      RawLength(rows[i]);
    }
    AllFlagsLength(rows[..k], 2 * |rows[0]|);
    AllRawLength(rows[..k], RowBytes(rows[0]));
  }

  // ------------------------------------------------------------------ building

  function ZeroBytes(n: nat): Bytes { seq(n, i => 0) }

  /** Writes some bytes into a buffer that is zero from there on. */
  method PutAt(a: array<Byte>, at: nat, bytes: Bytes, ghost before: Bytes)
    requires |before| == at && at + |bytes| <= a.Length && a[..] == before + ZeroBytes(a.Length - at)
    modifies a
    ensures a[..] == before + bytes + ZeroBytes(a.Length - at - |bytes|)
  {
    ghost var was := a[..];
    for i := 0 to |bytes|
      invariant forall k :: 0 <= k < i ==> a[at + k] == bytes[k]
      invariant forall k :: 0 <= k < a.Length && (k < at || at + i <= k) ==> a[k] == was[k]
    {
      a[at + i] := bytes[i];
    }
  }

  method BuildHeader(ext: bool, a: array<Byte>, count: nat, columns: nat, rowSize: nat)
    requires HeaderSize(ext) <= a.Length && a[..] == ZeroBytes(a.Length)
    modifies a
    ensures a[..] == Header(ext, count, columns, rowSize) + ZeroBytes(a.Length - HeaderSize(ext))
  {
    hide ZeroBytes, U16, U32;
    assert a[..] == [] + ZeroBytes(a.Length);
    U16Size(columns); U16Size(2); U16Size(rowSize); U32Size(1); U32Size(count); U32Size(rowSize);
    PutAt(a, 0, U32(1), []);
    ghost var h := U32(1);
    assert a[..] == h + ZeroBytes(a.Length - 4);
    PutAt(a, 4, U32(count), h);
    h := h + U32(count);
    PutAt(a, 8, U16(columns), h);
    h := h + U16(columns);
    PutAt(a, 10, U16(2), h);
    h := h + U16(2);
    if ext {
      ZeroBytesSplit(a.Length - 12, 4);
      assert h + ZeroBytes(a.Length - 12) == h + [0, 0, 0, 0] + ZeroBytes(a.Length - 16);
      PutAt(a, 16, U32(rowSize), h + [0, 0, 0, 0]);
    } else {
      PutAt(a, 12, U16(rowSize), h);
    }
  }

  lemma U16Size(n: nat) ensures |U16(n)| == 2 {}
  lemma U32Size(n: nat) ensures |U32(n)| == 4 {}

  lemma ZeroBytesSplit(n: nat, k: nat)
    requires k <= n
    ensures ZeroBytes(n) == ZeroBytes(k) + ZeroBytes(n - k)
    ensures ZeroBytes(2) == [0, 0] && ZeroBytes(4) == [0, 0, 0, 0]
  {}

  /** One indicator; the buffer is zero already where a value is not null. */
  method PutFlag(a: array<Byte>, idx: nat, b: Binding, ghost done: Bytes)
    requires |done| == idx && idx + 2 <= a.Length && a[..] == done + ZeroBytes(a.Length - idx)
    modifies a
    ensures a[..] == done + Flag(b) + ZeroBytes(a.Length - idx - 2)
  {
    hide ZeroBytes;
    if b.isNull {
      PutAt(a, idx, [0xFF, 0xFF], done);
    } else {
      ZeroBytesSplit(a.Length - idx, 2);
      assert done + ZeroBytes(a.Length - idx) == done + [0, 0] + ZeroBytes(a.Length - idx - 2);
    }
  }

  /** The indicators of one row. */
  method PutFlags(a: array<Byte>, indicatorOffset: nat, r: nat, columns: nat, row: Row, ghost before: Bytes)
    requires |row| == columns && |before| == indicatorOffset + r * (2 * columns)
    requires |before| + 2 * columns <= a.Length && a[..] == before + ZeroBytes(a.Length - |before|)
    modifies a
    ensures a[..] == before + Flags(row) + ZeroBytes(a.Length - |before| - 2 * columns)
  {
    hide ZeroBytes, Flag;
    assert before + Flags([]) == before;
    for c := 0 to |row|
      invariant a[..] == before + Flags(row[..c]) + ZeroBytes(a.Length - |before| - 2 * c)
    {
      FlagPlace(indicatorOffset, r, columns, c);
      FlagsMore(row, c);
      FlagsLength(row[..c]);
      hide Flags;
      var idx := indicatorOffset + (r * columns + c) * 2;
      ghost var done := before + Flags(row[..c]);
      assert |done| == idx;
      PutFlag(a, idx, row[c], done);
      assert before + Flags(row[..c + 1]) == done + Flag(row[c]);
    }
    assert row[..|row|] == row;
  }

  lemma FlagPlace(indicatorOffset: nat, r: nat, columns: nat, c: nat)
    ensures indicatorOffset + (r * columns + c) * 2 == indicatorOffset + r * (2 * columns) + 2 * c
  {}

  lemma FlagsMore(row: Row, c: nat)
    requires c < |row|
    ensures Flags(row[..c + 1]) == Flags(row[..c]) + Flag(row[c])
  {
    assert row[..c + 1][..c] == row[..c];
  }

  lemma RawMore(row: Row, c: nat)
    requires c < |row|
    ensures Raw(row[..c + 1]) == Raw(row[..c]) + row[c].raw
  {
    assert row[..c + 1][..c] == row[..c];
  }

  lemma {:induction false} RawPrefix(row: Row, c: nat)
    requires c <= |row|
    ensures |Raw(row[..c])| <= |Raw(row)|
    decreases |row| - c
  {
    if c < |row| {
      RawMore(row, c);
      RawPrefix(row, c + 1);
    } else {
      assert row[..c] == row;
    }
  }

  /** The values of one row. */
  method PutRaw(a: array<Byte>, start: nat, row: Row, ghost before: Bytes) returns (offset: nat)
    requires |before| == start && start + |Raw(row)| <= a.Length && a[..] == before + ZeroBytes(a.Length - start)
    modifies a
    ensures offset == start + |Raw(row)| && a[..] == before + Raw(row) + ZeroBytes(a.Length - offset)
  {
    hide ZeroBytes;
    offset := start;
    assert before + Raw([]) == before;
    for c := 0 to |row|
      invariant offset == start + |Raw(row[..c])| <= a.Length
      invariant a[..] == before + Raw(row[..c]) + ZeroBytes(a.Length - offset)
    {
      RawMore(row, c);
      RawPrefix(row, c + 1);
      ghost var done := before + Raw(row[..c]);
      PutAt(a, offset, row[c].raw, done);
      offset := offset + |row[c].raw|;
      assert before + Raw(row[..c + 1]) == done + row[c].raw;
    }
    assert row[..|row|] == row;
  }

  lemma RowsMore(rows: seq<Row>, r: nat)
    requires r < |rows|
    ensures AllFlags(rows[..r + 1]) == AllFlags(rows[..r]) + Flags(rows[r])
    ensures AllRaw(rows[..r + 1]) == AllRaw(rows[..r]) + Raw(rows[r])
  {
    assert rows[..r + 1][..r] == rows[..r];
  }

  lemma FlagsFit(rows: seq<Row>, r: nat)
    requires rows != [] && Uniform(rows) && r < |rows|
    ensures |rows[r]| == |rows[0]| && |AllFlags(rows[..r])| == r * (2 * |rows[0]|)
    ensures |AllFlags(rows[..r])| + 2 * |rows[0]| == |AllFlags(rows[..r + 1])| <= |rows| * (2 * |rows[0]|)
    ensures AllFlags(rows[..r + 1]) == AllFlags(rows[..r]) + Flags(rows[r])
  {
    hide AllFlags, Flags, RowBytes, SameShape;
    UniformRow(rows, r);
    hide Uniform;
    UniformLengths(rows, r);
    UniformLengths(rows, r + 1);
    RowsMore(rows, r);
    FlagsLength(rows[r]);
    FitsMore(r + 1, |rows|, 2 * |rows[0]|);
  }

  method PutAllFlags(a: array<Byte>, indicatorOffset: nat, rows: seq<Row>, ghost header: Bytes)
    requires |header| == indicatorOffset && rows != [] && Uniform(rows)
    requires |header| + |rows| * (2 * |rows[0]|) <= a.Length
    requires a[..] == header + ZeroBytes(a.Length - |header|)
    modifies a
    ensures |AllFlags(rows)| == |rows| * (2 * |rows[0]|)
    ensures a[..] == header + AllFlags(rows) + ZeroBytes(a.Length - |header| - |AllFlags(rows)|)
  {
    hide ZeroBytes, Uniform, Flags;
    assert header + AllFlags([]) == header;
    hide AllFlags;
    var columns := |rows[0]|;
    ghost var most := |rows| * (2 * columns);
    for r := 0 to |rows|
      invariant |AllFlags(rows[..r])| <= most
      invariant a[..] == header + AllFlags(rows[..r]) + ZeroBytes(a.Length - |header| - |AllFlags(rows[..r])|)
    {
      FlagsFit(rows, r);
      ghost var done := header + AllFlags(rows[..r]);
      PutFlags(a, indicatorOffset, r, columns, rows[r], done);
      assert header + AllFlags(rows[..r + 1]) == done + Flags(rows[r]);
    }
    assert rows[..|rows|] == rows;
    UniformLengths(rows, |rows|);
  }

  lemma FitsMore(r: nat, n: nat, k: nat)
    requires r <= n
    ensures r * k <= n * k
  {}

  lemma RawFit(rows: seq<Row>, r: nat)
    requires rows != [] && Uniform(rows) && r < |rows|
    ensures |AllRaw(rows[..r + 1])| == |AllRaw(rows[..r])| + |Raw(rows[r])| <= |rows| * RowBytes(rows[0])
    ensures AllRaw(rows[..r + 1]) == AllRaw(rows[..r]) + Raw(rows[r])
  {
    hide AllRaw, Raw, RowBytes, SameShape, Uniform;
    UniformLengths(rows, r + 1);
    RowsMore(rows, r);
    FitsMore(r + 1, |rows|, RowBytes(rows[0]));
  }

  method PutAllRaw(a: array<Byte>, dataOffset: nat, rows: seq<Row>, ghost before: Bytes)
    requires |before| == dataOffset && rows != [] && Uniform(rows)
    requires dataOffset + |rows| * RowBytes(rows[0]) == a.Length
    requires a[..] == before + ZeroBytes(a.Length - dataOffset)
    modifies a
    ensures a[..] == before + AllRaw(rows)
  {
    hide ZeroBytes, Uniform, Raw, RowBytes;
    assert before + AllRaw([]) == before;
    hide AllRaw;
    var offset := dataOffset;
    for r := 0 to |rows|
      invariant offset == dataOffset + |AllRaw(rows[..r])| <= a.Length
      invariant a[..] == before + AllRaw(rows[..r]) + ZeroBytes(a.Length - offset)
    {
      RawFit(rows, r);
      ghost var done := before + AllRaw(rows[..r]);
      offset := PutRaw(a, offset, rows[r], done);
      assert before + AllRaw(rows[..r + 1]) == done + Raw(rows[r]);
    }
    assert rows[..|rows|] == rows;
    UniformLengths(rows, |rows|);
    NoZeroBytes(a[..], before + AllRaw(rows));
  }

  lemma NoZeroBytes(s: Bytes, t: Bytes)
    ensures t + ZeroBytes(0) == t
  {}

  /** Whether the extended layout is used: always, unless the server described the parameters in the original
      format and the lengths fit it. */
  predicate Extended(original: bool, row: Row)
  {
    !original || |row| > 0xFFFF || RowBytes(row) > 0xFFFF
  }

  method PayloadLayout(original: bool, row: Row) returns (ext: bool)
    ensures ext <==> Extended(original, row)
  {
    if !original || |row| > 0xFFFF {
      return true;
    }
    var total: nat := 0;
    for i := 0 to |row|
      invariant total + RowBytes(row[i..]) == RowBytes(row) && total <= 0xFFFF
    {
      assert row[i..][1..] == row[i + 1..];
      assert RowBytes(row[i..]) == |row[i].raw| + RowBytes(row[i + 1..]);
      if |row[i].raw| > 0xFFFF {
        return true;
      }
      total := total + |row[i].raw|;
      if total > 0xFFFF {
        return true;
      }
    }
    return false;
  }

  datatype Built = Built(ext: bool, payload: Bytes)

  /** The data of a block: none without rows, for rows of different shapes, or with too many columns. */
  method BuildBlockParameterMarkerData(original: bool, rows: seq<Row>) returns (r: Option<Built>)
    ensures r.Some? <==> rows != [] && Uniform(rows) && |rows[0]| <= 0xFFFF
    ensures r.Some? ==> r.value.ext == Extended(original, rows[0]) && r.value.payload == Payload(r.value.ext, rows)
  {
    if |rows| == 0 {
      return None;
    }
    var rowSize := BindingRowBytes(rows[0]);
    for i := 0 to |rows|
      invariant forall k :: 0 <= k < i ==> SameShape(rows[0], rows[k])
    {
      var same := SameBindingShape(rows[0], rows[i]);
      if !same {
        return None;
      }
    }
    if |rows[0]| > 0xFFFF {
      return None;
    }
    var ext := PayloadLayout(original, rows[0]);
    var payload := FillBlock(ext, rows, rowSize);
    return Some(Built(ext, payload));
  }

  method FillBlock(ext: bool, rows: seq<Row>, rowSize: nat) returns (payload: Bytes)
    requires rows != [] && Uniform(rows) && rowSize == RowBytes(rows[0])
    ensures payload == Payload(ext, rows)
  {
    hide ZeroBytes, Header, Uniform, AllFlags, AllRaw, RowBytes;
    var columns := |rows[0]|;
    var headerSize := HeaderSize(ext);
    var indicatorTotal := |rows| * (2 * columns);
    var dataTotal := |rows| * rowSize;
    var a := new Byte[headerSize + indicatorTotal + dataTotal](i => 0);
    AllZero(a);
    BuildHeader(ext, a, |rows|, columns, rowSize);
    ghost var header := Header(ext, |rows|, columns, rowSize);
    HeaderLength(ext, |rows|, columns, rowSize);
    PutAllFlags(a, headerSize, rows, header);
    PutAllRaw(a, headerSize + indicatorTotal, rows, header + AllFlags(rows));
    return a[..];
  }

  lemma AllZero(a: array<Byte>)
    requires forall i :: 0 <= i < a.Length ==> a[i] == 0
    ensures a[..] == ZeroBytes(a.Length)
  {}

  lemma HeaderLength(ext: bool, count: nat, columns: nat, rowSize: nat)
    ensures |Header(ext, count, columns, rowSize)| == HeaderSize(ext)
  {}

  /** The data of a single row, built by the code for single executions. */
  method BuildParameterMarkerData(original: bool, row: Row) returns (r: Built)
    ensures r == Built(Extended(original, row), Payload(Extended(original, row), [row]))
  {
    hide ZeroBytes, Header, AllFlags, AllRaw, RowBytes, Flags, Raw;
    var ext := PayloadLayout(original, row);
    var total := BindingRowBytes(row);
    var headerSize := HeaderSize(ext);
    var a := new Byte[headerSize + 2 * |row| + total](i => 0);
    AllZero(a);
    BuildHeader(ext, a, 1, |row|, total);
    ghost var header := Header(ext, 1, |row|, total);
    HeaderLength(ext, 1, |row|, total);
    PutFlags(a, headerSize, 0, |row|, row, header);
    FlagsLength(row);
    RawLength(row);
    var end := PutRaw(a, headerSize + 2 * |row|, row, header + Flags(row));
    NoZeroBytes(a[..], header + Flags(row) + Raw(row));
    OneRow(row);
    return Built(ext, a[..]);
  }

  lemma OneRow(row: Row)
    ensures AllFlags([row]) == Flags(row) && AllRaw([row]) == Raw(row)
  {
    assert [row][..0] == [];
  }
}
