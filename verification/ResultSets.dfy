/** Reading the rows of a query: blocks fetched from a cursor, several result sets in turn, and the closing of
    cursors and statements. The answers of the server are a list that the requests consume in order; when it is
    used up every request fails. */
module ResultSets {

  import opened Wrappers

  /** A row of a block: it decodes to a value, or it does not decode. */
  datatype Item<T> = Good(row: T) | Bad

  /** Class 2 return codes of a fetch: 700, the server closed the cursor; 701, this is the last block. */
  datatype Code = NoCode | Code700 | Code701

  datatype Answer<T> = Block(items: seq<Item<T>>, code: Code) | Opened(columns: nat) | Accepted | Failed

  datatype Exchange = Open | OpenFailed | Fetch(code: Code) | FetchFailed | CursorClosed | StatementClosed

  datatype Result<T> = Row(row: T) | Eof | Mismatch | Error

  // ------------------------------------------------------------------ what there is to read

  datatype End = Finished | Broken

  datatype Future<T> = Future(rows: seq<T>, end: End)

  function Leading<T>(items: seq<Item<T>>): seq<T>
  {
    if items == [] || items[0].Bad? then [] else [items[0].row] + Leading(items[1..])
  }

  predicate AllGood<T>(items: seq<Item<T>>)
  {
    forall i :: 0 <= i < |items| ==> items[i].Good?
  }

  /** The rows of some items, then those that follow, unless an item does not decode. */
  function Then<T>(items: seq<Item<T>>, rest: Future<T>): Future<T>
  {
    if AllGood(items) then Future(Leading(items) + rest.rows, rest.end) else Future(Leading(items), Broken)
  }

  /** No fetch follows this block. */
  predicate Last<T>(b: Answer<T>, scrollable: bool)
    requires b.Block?
  {
    b.items == [] || b.code.Code701? || (b.code.Code700? && !scrollable)
  }

  /** The rows of the blocks, in order, up to the first empty block or last block inclusive. */
  function Upcoming<T>(answers: seq<Answer<T>>, scrollable: bool): Future<T>
  {
    if answers == [] || !answers[0].Block? then Future([], Broken)
    else Then(answers[0].items, if Last(answers[0], scrollable) then Future([], Finished)
                                else Upcoming(answers[1..], scrollable))
  }

  lemma ThenFirst<T>(items: seq<Item<T>>, rest: Future<T>)
    requires |items| > 0
    ensures items[0].Bad? ==> Then(items, rest) == Future([], Broken)
    ensures items[0].Good? ==>
              var later := Then(items[1..], rest);
              Then(items, rest) == Future([items[0].row] + later.rows, later.end)
  {
    if items[0].Good? {
      assert items == [items[0]] + items[1..];
      assert AllGood(items) <==> AllGood(items[1..]);
    }
  }

  lemma ThenNone<T>(rest: Future<T>)
    ensures Then([], rest) == rest
  {}

  // ------------------------------------------------------------------ what the server sees

  datatype CursorState = NoCursor | IsOpen | LastSeen | ByServer

  /** The life of the cursor on the server: fetched from only while it is open and its last block has not been
      seen, closed once unless the server closed it, opened again only when closed. None is a violation. */
  function Follow(before: Option<CursorState>, x: Exchange, scrollable: bool): Option<CursorState>
  {
    match x
    case Open => if Down(before) then Some(IsOpen) else None
    case OpenFailed => if Down(before) then before else None
    case Fetch(code) =>
      if before != Some(IsOpen) then None
      else if code.Code700? && !scrollable then Some(ByServer)
      else if code.Code701? then Some(LastSeen)
      else Some(IsOpen)
    case FetchFailed => if before == Some(IsOpen) then before else None
    case CursorClosed => if before == Some(IsOpen) || before == Some(LastSeen) then Some(NoCursor) else None
    case StatementClosed => if Down(before) then before else None
  }

  predicate Down(c: Option<CursorState>) { c == Some(NoCursor) || c == Some(ByServer) }

  function Track(log: seq<Exchange>, scrollable: bool): Option<CursorState>
  {
    if log == [] then Some(NoCursor)
    else Follow(Track(log[..|log| - 1], scrollable), log[|log| - 1], scrollable)
  }

  lemma TrackMore(log: seq<Exchange>, x: Exchange, scrollable: bool)
    ensures Track(log + [x], scrollable) == Follow(Track(log, scrollable), x, scrollable)
  {
    assert (log + [x])[..|log|] == log && (log + [x])[|log|] == x;
  }

  function ClosingRequests(serverClosed: bool, ownStatement: bool): seq<Exchange>
  {
    (if serverClosed then [] else [CursorClosed]) + (if ownStatement then [StatementClosed] else [])
  }

  lemma ClosingTrack(log: seq<Exchange>, now: CursorState, serverClosed: bool, ownStatement: bool, scrollable: bool)
    requires Track(log, scrollable) == Some(now) && !now.NoCursor? && (serverClosed <==> now.ByServer?)
    ensures Down(Track(log + ClosingRequests(serverClosed, ownStatement), scrollable))
  {
    var closed := if serverClosed then log else log + [CursorClosed];
    TrackMore(log, CursorClosed, scrollable);
    TrackMore(closed, StatementClosed, scrollable);
    assert log + ClosingRequests(serverClosed, ownStatement) == if ownStatement then closed + [StatementClosed] else closed;
  }

  /** Every log without violation has no violation before. */
  lemma {:induction false} TrackPrefix(log: seq<Exchange>, i: nat, scrollable: bool)
    requires Track(log, scrollable).Some? && i <= |log|
    ensures Track(log[..i], scrollable).Some?
  {
    if i == |log| {
      assert log[..i] == log;
    } else {
      TrackPrefix(log[..|log| - 1], i, scrollable);
      assert log[..|log| - 1][..i] == log[..i];
    }
  }

  /** A cursor that is not open is not open again until an Open. */
  lemma {:induction false} StaysDown(log: seq<Exchange>, i: nat, j: nat, scrollable: bool)
    requires Track(log, scrollable).Some? && i <= j <= |log| && Track(log[..i], scrollable) != Some(IsOpen)
    requires forall k :: i <= k < j ==> !log[k].Open?
    ensures Track(log[..j], scrollable) != Some(IsOpen)
    decreases j
  {
    if i < j {
      StaysDown(log, i, j - 1, scrollable);
      TrackPrefix(log, j, scrollable);
      assert log[..j][..j - 1] == log[..j - 1];
    }
  }

  /** In a log without violation no fetch follows a block that was the last one, nor a close, until the cursor is
      opened again. */
  lemma NoFetchAfterLast(log: seq<Exchange>, i: nat, j: nat, scrollable: bool)
    requires Track(log, scrollable).Some? && i < j < |log|
    requires log[i] == CursorClosed || log[i] == Fetch(Code701) || (log[i] == Fetch(Code700) && !scrollable)
    requires log[j].Fetch? || log[j].FetchFailed?
    ensures exists k :: i < k < j && log[k].Open?
  {
    TrackPrefix(log, i + 1, scrollable);
    TrackPrefix(log, j + 1, scrollable);
    assert log[..i + 1][..i] == log[..i] && log[..j + 1][..j] == log[..j];
    assert Track(log[..i + 1], scrollable) != Some(IsOpen);
    assert Track(log[..j], scrollable) == Some(IsOpen);
    if forall k :: i < k < j ==> !log[k].Open? {
      StaysDown(log, i + 1, j, scrollable);
    }
  }

  lemma {:induction false} StaysClosed(log: seq<Exchange>, i: nat, j: nat, scrollable: bool)
    requires Track(log, scrollable).Some? && i <= j <= |log| && Down(Track(log[..i], scrollable))
    requires forall k :: i <= k < j ==> !log[k].Open?
    ensures Down(Track(log[..j], scrollable))
    decreases j
  {
    if i < j {
      StaysClosed(log, i, j - 1, scrollable);
      TrackPrefix(log, j, scrollable);
      assert log[..j][..j - 1] == log[..j - 1];
    }
  }

  /** In a log without violation a cursor is closed at most once, and not at all after the server closed it,
      until it is opened again. */
  lemma OneClose(log: seq<Exchange>, i: nat, j: nat, scrollable: bool)
    requires Track(log, scrollable).Some? && i < j < |log|
    requires log[i] == CursorClosed || (log[i] == Fetch(Code700) && !scrollable)
    requires log[j] == CursorClosed
    ensures exists k :: i < k < j && log[k].Open?
  {
    TrackPrefix(log, i + 1, scrollable);
    TrackPrefix(log, j + 1, scrollable);
    assert log[..i + 1][..i] == log[..i] && log[..j + 1][..j] == log[..j];
    assert Down(Track(log[..i + 1], scrollable));
    assert !Down(Track(log[..j], scrollable));
    if forall k :: i < k < j ==> !log[k].Open? {
      StaysClosed(log, i + 1, j, scrollable);
    }
  }

  /** The rows of some blocks. */
  function Concat<T>(blocks: seq<Answer<T>>): seq<T>
    requires forall i :: 0 <= i < |blocks| ==> blocks[i].Block?
  {
    if blocks == [] then [] else Leading(blocks[0].items) + Concat(blocks[1..])
  }

  /** When every block up to the first last one decodes, what there is to read is exactly their concatenation. */
  lemma {:induction false} UpcomingIsConcatenation<T>(answers: seq<Answer<T>>, n: nat, scrollable: bool)
    requires n < |answers| && forall i :: 0 <= i <= n ==> answers[i].Block? && AllGood(answers[i].items)
    requires forall i :: 0 <= i < n ==> !Last(answers[i], scrollable)
    requires Last(answers[n], scrollable)
    ensures Upcoming(answers, scrollable) == Future(Concat(answers[..n + 1]), Finished)
  {
    var blocks := answers[..n + 1];
    assert blocks[0] == answers[0];
    if n > 0 {
      UpcomingIsConcatenation(answers[1..], n - 1, scrollable);
      assert answers[1..][..n] == blocks[1..];
    } else {
      assert blocks[1..] == [];
    }
  }

  datatype Advance = Moved | NoMore | Lost

  class QueryRows<T> {
    const scrollable: bool
    const ownStatement: bool
    const resultSetCount: int
    var answers: seq<Answer<T>>
    var log: seq<Exchange>
    var closed: bool
    var columns: nat
    var done: bool
    var block: Option<seq<Item<T>>>
    var rowIndex: nat
    var currentRow: nat
    var serverClosed: bool
    var endOfData: bool
    var resultSetIndex: nat
    var held: bool               // the statement reference is still to be released
    var releases: nat
    ghost var abandoned: bool    // closed by a failure between two result sets
    const counted: bool          // there was a statement reference to release

    ghost predicate Valid()
      reads this
    {
      && (block.Some? ==> rowIndex <= |block.value|)
      && (columns == 0 ==> block.None?)
      && !(serverClosed && endOfData)
      && (!closed ==> Track(log, scrollable) == Some(CursorNow()) && !abandoned)
      && (closed ==> Down(Track(log, scrollable)))
      && (closed && !abandoned ==> !held)
      && (abandoned || !closed ==> held == counted)
      && (abandoned ==> closed) && (held ==> counted)
      && releases == if counted && !held then 1 else 0
    }

    function CursorNow(): CursorState
      reads this`serverClosed, this`endOfData
    {
      if serverClosed then ByServer else if endOfData then LastSeen else IsOpen
    }

    /** What the server has still to send for the current result set. */
    ghost function Rest(): Future<T>
      reads this`serverClosed, this`endOfData, this`answers
    {
      if serverClosed || endOfData then Future([], Finished) else Upcoming(answers, scrollable)
    }

    /** The rows of the current result set that Next has still to return, and how they end. */
    ghost function Ahead(): Future<T>
      reads this
      requires Valid()
    {
      if closed || done || columns == 0 then Future([], Finished)
      else if block.None? then Rest()
      else if block.value == [] then Future([], Finished)
      else Then(block.value[rowIndex..], Rest())
    }

    predicate LastSet()
      reads this`resultSetIndex
    {
      resultSetCount <= 0 || resultSetIndex >= resultSetCount
    }

    /** A query whose cursor was just opened. */
    constructor (scrollable: bool, ownStatement: bool, resultSetCount: int, columns: nat, held: bool,
                 answers: seq<Answer<T>>)
      ensures Valid() && !closed && this.scrollable == scrollable && this.answers == answers && log == [Open]
      ensures this.held == held == counted && releases == 0 && resultSetIndex == 1 && this.resultSetCount == resultSetCount
      ensures this.columns == columns && (columns > 0 ==> Ahead() == Upcoming(answers, scrollable))
    {
      this.scrollable, this.ownStatement, this.resultSetCount := scrollable, ownStatement, resultSetCount;
      this.answers, this.columns, this.held, this.counted := answers, columns, held, held;
      log, closed, done, block, rowIndex, currentRow := [Open], false, columns == 0, None, 0, 0;
      serverClosed, endOfData, resultSetIndex, releases, abandoned := false, false, 1, 0, false;
    }

    /** One request and its answer. */
    method Ask(request: Exchange) returns (a: Answer<T>)
      modifies this`answers, this`log
      ensures log == old(log) + [request]
      ensures old(answers) == [] ==> a.Failed? && answers == []
      ensures old(answers) != [] ==> a == old(answers)[0] && answers == old(answers)[1..]
    {
      log := log + [request];
      if answers == [] {
        return Failed;
      }
      a := answers[0];
      answers := answers[1..];
    }

    function Closing(): seq<Exchange>
      reads this`serverClosed
    {
      ClosingRequests(serverClosed, ownStatement)
    }

    /** Closes once: the cursor unless the server did, the statement if it is ours, and the reference to a cached
        statement is given back. */
    method Close() returns (failed: bool)
      requires Valid()
      modifies this`closed, this`answers, this`log, this`held, this`releases
      ensures Valid() && closed && abandoned == old(abandoned)
      ensures old(closed) ==> !failed && log == old(log) && held == old(held) && releases == old(releases)
      ensures !old(closed) ==>
                log == old(log) + Closing() && !held && releases == old(releases) + if old(held) then 1 else 0
    {
      if closed {
        return false;
      }
      ClosingTrack(log, CursorNow(), serverClosed, ownStatement, scrollable);
      hide Track;
      closed := true;
      failed := SendClosing();
      if held {
        held := false;
        releases := releases + 1;
      }
    }

    method SendClosing() returns (failed: bool)
      modifies this`answers, this`log
      ensures log == old(log) + Closing()
    {
      failed := false;
      if !serverClosed {
        var a := Ask(CursorClosed);
        failed := !a.Accepted?;
      }
      if ownStatement {
        var ignored := Ask(StatementClosed);
      }
    }

    /** One fetch. */
    method FetchBlock() returns (b: Option<Answer<T>>)
      requires Valid() && !closed && !serverClosed && !endOfData
      modifies this`answers, this`log, this`serverClosed, this`endOfData
      ensures Valid()
      ensures b.Some? <==> old(answers) != [] && old(answers)[0].Block?
      ensures b.Some? ==> b.value == old(answers)[0] && answers == old(answers)[1..] && log == old(log) + [Fetch(b.value.code)]
      ensures b.Some? ==> serverClosed == (b.value.code.Code700? && !scrollable) && endOfData == b.value.code.Code701?
      ensures b.None? ==> log == old(log) + [FetchFailed] && !serverClosed && !endOfData
      ensures b.Some? && b.value.items != [] ==> old(Rest()) == Then(b.value.items, Rest())
      ensures b.Some? && b.value.items == [] ==> old(Rest()) == Future([], Finished)
      ensures b.None? ==> old(Rest()) == Future([], Broken)
    {
      var request := if answers != [] && answers[0].Block? then Fetch(answers[0].code) else FetchFailed;
      TrackMore(log, request, scrollable);
      hide Track;
      var a := Ask(request);
      if !a.Block? {
        return None;
      }
      serverClosed := a.code.Code700? && !scrollable;
      endOfData := a.code.Code701?;
      return Some(a);
    }

    /** The row, the end of the result set, or an error; what was ahead is ahead still, less the row returned. */
    method Next(width: nat) returns (r: Result<T>)
      requires Valid()
      modifies this
      ensures Valid() && resultSetIndex == old(resultSetIndex) && abandoned == old(abandoned)
      ensures r.Mismatch? <==> !old(closed) && width != old(columns)
      ensures r.Mismatch? ==> Ahead() == old(Ahead()) && log == old(log)
      ensures old(closed) ==> r.Eof? && log == old(log) && closed && releases == old(releases) && held == old(held)
      ensures !r.Mismatch? && old(Ahead()).rows != [] ==>
                r == Row(old(Ahead()).rows[0]) && !closed && !done &&
                Ahead() == old(Ahead()).(rows := old(Ahead()).rows[1..]) &&
                (log == old(log) || exists code :: log == old(log) + [Fetch(code)])
      ensures !r.Mismatch? && old(Ahead()).rows == [] ==>
                r == (if old(Ahead()).end.Finished? then Eof else Error) && Ahead() == Future([], Finished) &&
                (r.Eof? && !old(closed) && !old(done) ==> done && (closed <==> LastSet())) && (r.Error? ==> closed)
    {
      if closed {
        return Eof;
      }
      if width != columns {
        return Mismatch;
      }
      if columns == 0 {
        if done {
          return Eof;
        }
        done := true;
        if LastSet() {
          var ignored := Close();
        }
        return Eof;
      }
      if done {
        return Eof;
      }
      r := ReadRow();
    }

    method ReadRow() returns (r: Result<T>)
      requires Valid() && !closed && !done && columns > 0
      modifies this
      ensures Valid() && resultSetIndex == old(resultSetIndex) && abandoned == old(abandoned)
      ensures old(Ahead()).rows != [] ==>
                r == Row(old(Ahead()).rows[0]) && !closed && !done &&
                Ahead() == old(Ahead()).(rows := old(Ahead()).rows[1..]) &&
                (log == old(log) || exists code :: log == old(log) + [Fetch(code)])
      ensures old(Ahead()).rows == [] ==>
                r == (if old(Ahead()).end.Finished? then Eof else Error) && Ahead() == Future([], Finished) &&
                (r.Eof? ==> done && (closed <==> LastSet())) && (r.Error? ==> closed)
    {
      while true
        invariant Valid() && !closed && !done && columns == old(columns)
        invariant resultSetIndex == old(resultSetIndex) && abandoned == old(abandoned)
        invariant Ahead() == old(Ahead())
        invariant log == old(log) || (exists code :: log == old(log) + [Fetch(code)])
        invariant log != old(log) ==> block.Some? && rowIndex < |block.value|
        decreases block.None? || rowIndex >= |block.value|
      {
        hide Track, Upcoming, Then;
        if block.Some? && rowIndex < |block.value| {
          r := TakeRow();
          return;
        }
        if block.Some? && block.value == [] {
          Finish();
          return Eof;
        }
        var ended := Refill();
        if ended.Some? {
          return ended.value;
        }
      }
    }

    /** The result set has no more rows; the last one closes the query. */
    method Finish()
      requires Valid() && !closed
      modifies this`done, this`closed, this`answers, this`log, this`held, this`releases
      ensures Valid() && done && (closed <==> LastSet())
    {
      done := true;
      if LastSet() {
        var ignored := Close();
      }
    }

    method Refill() returns (ended: Option<Result<T>>)
      requires Valid() && !closed && !done && columns > 0
      requires block.None? || (block.value != [] && rowIndex == |block.value|)
      modifies this
      ensures Valid() && resultSetIndex == old(resultSetIndex) && abandoned == old(abandoned) && columns == old(columns)
      ensures ended.None? ==> !closed && !done && Ahead() == old(Ahead()) && block.Some? && rowIndex < |block.value|
      ensures ended.None? ==> exists code :: log == old(log) + [Fetch(code)]
      ensures ended.Some? ==> old(Ahead()).rows == [] && Ahead() == Future([], Finished)
      ensures ended.Some? ==> ended.value == if old(Ahead()).end.Finished? then Eof else Error
      ensures ended == Some(Eof) ==> done && (closed <==> LastSet())
      ensures ended == Some(Error) ==> closed
    {
      ThenNone(Rest());
      hide Track, Then, Upcoming;
      assert block.Some? ==> block.value[rowIndex..] == [];
      var b: Option<Answer<T>> := None;
      if !serverClosed && !endOfData {
        b := FetchBlock();
        if b.None? {
          var ignored := Close();
          return Some(Error);
        }
      }
      if b.None? || b.value.items == [] {
        block, rowIndex := None, 0;
        Finish();
        return Some(Eof);
      }
      block, rowIndex := Some(b.value.items), 0;
      assert block.value[0..] == b.value.items;
      return None;
    }

    method TakeRow() returns (r: Result<T>)
      requires Valid() && !closed && !done && columns > 0 && block.Some? && rowIndex < |block.value|
      modifies this
      ensures Valid() && resultSetIndex == old(resultSetIndex) && abandoned == old(abandoned)
      ensures old(Ahead()).rows != [] ==>
                r == Row(old(Ahead()).rows[0]) && !closed && !done && log == old(log) &&
                Ahead() == old(Ahead()).(rows := old(Ahead()).rows[1..])
      ensures old(Ahead()).rows == [] ==> r.Error? && old(Ahead()).end.Broken? && closed
    {
      hide Track;
      ghost var items := block.value[rowIndex..];
      ThenFirst(items, Rest());
      ThenNone(Rest());
      hide Then, Rest;
      var item := block.value[rowIndex];
      if item.Bad? {
        var ignored := Close();
        return Error;
      }
      assert items[1..] == block.value[rowIndex + 1..];
      rowIndex := rowIndex + 1;
      currentRow := currentRow + 1;
      if rowIndex >= |block.value| {
        assert items[1..] == [];
        block, rowIndex := None, 0;
      }
      return Row(item.row);
    }

    /** Moves to the next result set: the cursor is closed unless the server did, and opened again. A failure on
        the way closes the query without giving the statement back. */
    method NextResultSet() returns (r: Advance)
      requires Valid()
      modifies this
      ensures Valid()
      ensures old(closed) ==> r.NoMore? && log == old(log) && closed && releases == old(releases)
      ensures !old(closed) && old(LastSet()) ==> !r.Moved? && closed && !abandoned && log == old(log) + old(Closing())
      ensures !old(closed) && !old(LastSet()) ==> !r.NoMore? && closed == abandoned == r.Lost? && held == old(held)
      ensures r.Moved? ==> resultSetIndex == old(resultSetIndex) + 1
      ensures r.Moved? ==> log == old(log) + (if old(serverClosed) then [Open] else [CursorClosed, Open])
      ensures r.Moved? && columns > 0 ==> Ahead() == Upcoming(answers, scrollable)
    {
      if closed {
        return NoMore;
      }
      if LastSet() {
        var failed := Close();
        return if failed then Lost else NoMore;
      }
      var lost := false;
      if !serverClosed {
        lost := CloseForNext();
      }
      if !lost {
        lost := Reopen();
      }
      return if lost then Lost else Moved;
    }

    method CloseForNext() returns (lost: bool)
      requires Valid() && !closed && !serverClosed
      modifies this`answers, this`log, this`closed, this`abandoned
      ensures log == old(log) + [CursorClosed] && Track(log, scrollable) == Some(NoCursor)
      ensures closed == abandoned == lost
    {
      TrackMore(log, CursorClosed, scrollable);
      hide Track;
      var a := Ask(CursorClosed);
      lost := !a.Accepted?;
      if lost {
        closed, abandoned := true, true;
      }
    }

    method Reopen() returns (lost: bool)
      requires !closed && !abandoned && Down(Track(log, scrollable))
      requires held == counted && releases == 0 && (columns == 0 ==> block.None?)
      requires block.Some? ==> rowIndex <= |block.value|
      requires !(serverClosed && endOfData)
      modifies this`answers, this`log, this`closed, this`abandoned, this`serverClosed, this`endOfData, this`columns,
        this`block, this`rowIndex, this`done, this`resultSetIndex
      ensures Valid() && closed == abandoned == lost
      ensures !lost ==> log == old(log) + [Open] && resultSetIndex == old(resultSetIndex) + 1
      ensures !lost && columns > 0 ==> Ahead() == Upcoming(answers, scrollable)
    {
      var request := if answers != [] && answers[0].Opened? then Open else OpenFailed;
      TrackMore(log, request, scrollable);
      assert Follow(Track(log, scrollable), request, scrollable) == if request.Open? then Some(IsOpen) else Track(log, scrollable);
      hide Track, Follow, Upcoming, Then;
      var a := Ask(request);
      lost := !a.Opened?;
      if lost {
        closed, abandoned := true, true;
      } else {
        StartSet(a.columns);
      }
    }

    method StartSet(cols: nat)
      requires !closed && !abandoned && Track(log, scrollable) == Some(IsOpen) && held == counted && releases == 0
      modifies this`serverClosed, this`endOfData, this`columns, this`block, this`rowIndex, this`done, this`resultSetIndex
      ensures Valid() && columns == cols && resultSetIndex == old(resultSetIndex) + 1
      ensures columns > 0 ==> Ahead() == Upcoming(answers, scrollable)
    {
      hide Track, Upcoming;
      serverClosed, endOfData := false, false;
      columns, block, rowIndex, done := cols, None, 0, cols == 0;
      resultSetIndex := resultSetIndex + 1;
    }

    /** Moving on and then closing gives the statement back exactly when the move was not lost between two result
        sets: after such a failure closing does nothing. */
    method NextThenClose() returns (r: Advance)
      requires Valid() && !closed && held
      modifies this
      ensures Valid() && closed
      ensures r.Lost? && !old(LastSet()) ==> held && releases == 0
      ensures !(r.Lost? && !old(LastSet())) ==> !held && releases == 1
    {
      r := NextResultSet();
      var ignored := Close();
    }

    /** Reading on until there is no row left, as callers of Next do. */
    method Drain() returns (rows: seq<T>, last: Result<T>)
      requires Valid() && !closed
      modifies this
      ensures Valid() && rows == old(Ahead()).rows
      ensures last == if old(Ahead()).end.Finished? then Eof else Error
    {
      rows := [];
      last := Next(columns);
      while last.Row?
        invariant Valid() && !last.Mismatch?
        invariant last.Row? ==> !closed && rows + [last.row] + Ahead().rows == old(Ahead()).rows
        invariant last.Row? ==> Ahead().end == old(Ahead()).end
        invariant !last.Row? ==> rows == old(Ahead()).rows && last == if old(Ahead()).end.Finished? then Eof else Error
        decreases if last.Row? then 1 + |Ahead().rows| else 0
      {
        hide Track, Upcoming, Then;
        rows := rows + [last.row];
        last := Next(columns);
      }
    }
  }
}
