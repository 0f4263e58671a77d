/** Splitting the rows of a batch into blocks: consecutive rows of one shape, within the limits on rows and bytes. */
module BatchBlocks {

  type Byte = b: int | 0 <= b < 256

  datatype Binding = Binding(isNull: bool, raw: seq<Byte>)

  type Row = seq<Binding>

  const MaxBlockRows: nat := 32000
  const MaxBlockBytes: nat := 0x100000

  function RowBytes(row: Row): nat
  {
    if row == [] then 0 else |row[0].raw| + RowBytes(row[1..])
  }

  predicate SameShape(a: Row, b: Row)
  {
    |a| == |b| && forall i :: 0 <= i < |a| ==> |a[i].raw| == |b[i].raw|
  }

  lemma {:induction false} SameBytes(a: Row, b: Row)
    requires SameShape(a, b)
    ensures RowBytes(a) == RowBytes(b)
  {
    if a != [] {
      SameBytes(a[1..], b[1..]);
    }
  }

  method SameBindingShape(a: Row, b: Row) returns (same: bool)
    ensures same <==> SameShape(a, b)
  {
    if |a| != |b| {
      return false;
    }
    for i := 0 to |a|
      invariant forall k :: 0 <= k < i ==> |a[k].raw| == |b[k].raw|
    {
      if |a[i].raw| != |b[i].raw| {
        return false;
      }
    }
    return true;
  }

  method BindingRowBytes(row: Row) returns (total: nat)
    ensures total == RowBytes(row)
  {
    total := 0;
    for i := 0 to |row|
      invariant total + RowBytes(row[i..]) == RowBytes(row)
    {
      assert row[i..][1..] == row[i + 1..];
      total := total + |row[i].raw|;
    }
  }

  // ------------------------------------------------------------------ blocks

  /** Rows from..to may travel in one block: one shape, within the limits; a single row always may. */
  predicate BlockOk(rows: seq<Row>, from: nat, to: nat)
  {
    && from < to <= |rows| && to - from <= MaxBlockRows
    && (forall i :: from <= i < to ==> SameShape(rows[from], rows[i]))
    && (to - from == 1 || (to - from) * RowBytes(rows[from]) <= MaxBlockBytes)
  }

  lemma LessBytes(n: nat, m: nat, bytes: nat)
    requires n <= m
    ensures n * bytes <= m * bytes
  {}

  /** A shorter block from the same row is one too. */
  lemma BlockPrefix(rows: seq<Row>, from: nat, mid: nat, to: nat)
    requires BlockOk(rows, from, to) && from < mid <= to
    ensures BlockOk(rows, from, mid)
  {
    LessBytes(mid - from, to - from, RowBytes(rows[from]));
  }

  /** So is the end of a block. */
  lemma BlockSuffix(rows: seq<Row>, from: nat, mid: nat, to: nat)
    requires BlockOk(rows, from, to) && from <= mid < to
    ensures BlockOk(rows, mid, to)
  {
    assert SameShape(rows[from], rows[mid]);
    SameBytes(rows[from], rows[mid]);
    LessBytes(to - mid, to - from, RowBytes(rows[from]));
    forall i | mid <= i < to ensures SameShape(rows[mid], rows[i]) {
      assert SameShape(rows[from], rows[i]);
    }
  }

  /** The block from a row on is as long as it can be. */
  method BlockEnd(rows: seq<Row>, start: nat) returns (end: nat)
    requires start < |rows|
    ensures BlockOk(rows, start, end)
    ensures forall e: nat :: BlockOk(rows, start, e) ==> e <= end
  {
    end := start + 1;
    var rowBytes := BindingRowBytes(rows[start]);
    while end < |rows| && end - start < MaxBlockRows
      invariant BlockOk(rows, start, end)
      decreases |rows| - end
    {
      var same := SameBindingShape(rows[start], rows[end]);
      if !same {
        LongerFails(rows, start, end);
        break;
      }
      if (end - start + 1) * rowBytes > MaxBlockBytes {
        LongerFails(rows, start, end);
        break;
      }
      end := end + 1;
    }
  }

  lemma LongerFails(rows: seq<Row>, start: nat, end: nat)
    requires start < end && !BlockOk(rows, start, end + 1)
    ensures forall e: nat :: BlockOk(rows, start, e) ==> e <= end
  {
    forall e: nat | BlockOk(rows, start, e) ensures e <= end {
      if e > end {
        BlockPrefix(rows, start, end + 1, e);
      }
    }
  }

  // ------------------------------------------------------------------ splits

  /** The ends of consecutive blocks that cover the rows from a place on. */
  predicate IsSplit(rows: seq<Row>, start: nat, ends: seq<nat>)
    decreases |ends|
  {
    if ends == [] then start == |rows|
    else BlockOk(rows, start, ends[0]) && IsSplit(rows, ends[0], ends[1..])
  }

  ghost predicate Longest(rows: seq<Row>, from: nat, to: nat)
  {
    BlockOk(rows, from, to) && forall e: nat :: BlockOk(rows, from, e) ==> e <= to
  }

  /** Consecutive blocks from one place to another, each as long as it can be. */
  ghost predicate Greedy(rows: seq<Row>, start: nat, ends: seq<nat>, stop: nat)
    decreases |ends|
  {
    if ends == [] then start == stop
    else Longest(rows, start, ends[0]) && Greedy(rows, ends[0], ends[1..], stop)
  }

  lemma {:induction false} GreedyMore(rows: seq<Row>, start: nat, ends: seq<nat>, stop: nat, next: nat)
    requires Greedy(rows, start, ends, stop) && Longest(rows, stop, next)
    ensures Greedy(rows, start, ends + [next], next)
    decreases |ends|
  {
    hide Longest;
    if ends == [] {
      assert ([next])[1..] == [];
    } else {
      GreedyMore(rows, ends[0], ends[1..], stop, next);
      assert (ends + [next])[1..] == ends[1..] + [next];
    }
  }

  lemma {:induction false} GreedySplits(rows: seq<Row>, start: nat, ends: seq<nat>)
    requires Greedy(rows, start, ends, |rows|)
    ensures IsSplit(rows, start, ends)
    decreases |ends|
  {
    if ends != [] {
      GreedySplits(rows, ends[0], ends[1..]);
    }
  }

  /** No split, from the same row or an earlier one, has fewer blocks than the greedy one. */
  lemma {:induction false} GreedyIsOptimal(rows: seq<Row>, start: nat, ends: seq<nat>, earlier: nat, other: seq<nat>)
    requires earlier <= start && Greedy(rows, start, ends, |rows|) && IsSplit(rows, earlier, other)
    ensures |ends| <= |other|
    decreases |other|
  {
    if ends != [] {
      var c := other[0];
      if c <= start {
        GreedyIsOptimal(rows, start, ends, c, other[1..]);
      } else {
        BlockSuffix(rows, earlier, start, c);
        GreedyIsOptimal(rows, ends[0], ends[1..], c, other[1..]);
      }
    }
  }

  // ------------------------------------------------------------------ sending the blocks

  datatype Answer = Count(n: nat) | Failed

  function Total(answers: seq<Answer>): nat
  {
    if answers == [] then 0
    else Total(answers[..|answers| - 1]) + if answers[|answers| - 1].Count? then answers[|answers| - 1].n else 0
  }

  /** Sends the blocks in turn, until one fails. The answer to the k-th block is the k-th of `answers`, and there
      is one for every block. */
  method ExecBatchBlocks(rows: seq<Row>, answers: seq<Answer>) returns (total: nat, ok: bool, ends: seq<nat>)
    requires |answers| >= |rows|
    ensures |ends| <= |answers| && total == Total(answers[..|ends|])
    ensures ok <==> forall k :: 0 <= k < |ends| ==> answers[k].Count?
    ensures ok ==> IsSplit(rows, 0, ends) && forall other :: IsSplit(rows, 0, other) ==> |ends| <= |other|
    ensures !ok ==> |ends| > 0 && answers[|ends| - 1].Failed? && Greedy(rows, 0, ends, ends[|ends| - 1])
  {
    total, ok, ends := 0, true, [];
    var start := 0;
    while start < |rows|
      invariant start <= |rows| && |ends| <= start && ok
      invariant Greedy(rows, 0, ends, start)
      invariant total == Total(answers[..|ends|])
      invariant forall k :: 0 <= k < |ends| ==> answers[k].Count?
      decreases |rows| - start
    {
      hide Greedy;
      var end := BlockEnd(rows, start);
      GreedyMore(rows, 0, ends, start, end);
      var k := |ends|;
      assert answers[..k + 1][..k] == answers[..k];
      ends := ends + [end];
      if answers[k].Failed? {
        ok := false;
        return;
      }
      total := total + answers[k].n;
      start := end;
    }
    GreedySplits(rows, 0, ends);
    forall other | IsSplit(rows, 0, other) ensures |ends| <= |other| {
      GreedyIsOptimal(rows, 0, ends, 0, other);
    }
  }
}
