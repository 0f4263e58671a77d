/** Which rows a cursor yields and how they end, told block by block. */
module ResultSetRows {

  import opened ResultSets

  /** Block after block: every item decodes, and the server has more. */
  predicate Goes<T>(a: Answer<T>, scrollable: bool)
  {
    && a.Block? && a.items != [] && (forall k :: 0 <= k < |a.items| ==> a.items[k].Good?)
    && a.code != Code701 && (a.code == Code700 ==> scrollable)
  }

  /** The rows of blocks whose items all decode. */
  ghost predicate RowsAre<T>(items: seq<Item<T>>, rows: seq<T>)
  {
    |rows| == |items| && forall k :: 0 <= k < |items| ==> items[k] == Good(rows[k])
  }

  /** The items of some blocks, one after the other. */
  function Items<T>(blocks: seq<Answer<T>>): seq<Item<T>>
  {
    if blocks == [] then [] else (if blocks[0].Block? then blocks[0].items else []) + Items(blocks[1..])
  }

  lemma {:induction false} LeadingRows<T>(items: seq<Item<T>>, k: nat)
    requires k <= |items| && (forall i :: 0 <= i < k ==> items[i].Good?) && (k < |items| ==> items[k].Bad?)
    ensures RowsAre(items[..k], Leading(items))
  {
    if k > 0 {
      LeadingRows(items[1..], k - 1);
      assert items[..k] == [items[0]] + items[1..][..k - 1];
    }
  }

  lemma RowsConcat<T>(a: seq<Item<T>>, b: seq<Item<T>>, x: seq<T>, y: seq<T>)
    requires RowsAre(a, x) && RowsAre(b, y)
    ensures RowsAre(a + b, x + y)
  {}

  /** How the rows end, from the answer after the blocks that go on: k is the number of its items that decode. */
  ghost predicate EndsAt<T>(answers: seq<Answer<T>>, n: nat, k: nat, scrollable: bool, end: End)
  {
    if n == |answers| || (n < |answers| && !answers[n].Block?) then k == 0 && end == Broken
    else
      n < |answers| &&
      var a := answers[n];
      && k <= |a.items| && (forall i :: 0 <= i < k ==> a.items[i].Good?) && (k < |a.items| ==> a.items[k].Bad?)
      && (k < |a.items| ==> end == Broken)
      && (k == |a.items| ==> end == Finished && (k == 0 || a.code == Code701 || (a.code == Code700 && !scrollable)))
  }

  function LastItems<T>(answers: seq<Answer<T>>, n: nat, k: nat): seq<Item<T>>
  {
    if n < |answers| && answers[n].Block? && k <= |answers[n].items| then answers[n].items[..k] else []
  }

  lemma GoesOn<T>(answers: seq<Answer<T>>, scrollable: bool)
    requires answers != [] && Goes(answers[0], scrollable)
    ensures answers[0].Block? && RowsAre(answers[0].items, Leading(answers[0].items))
    ensures var later := Upcoming(answers[1..], scrollable);
            Upcoming(answers, scrollable) == Future(Leading(answers[0].items) + later.rows, later.end)
  {
    var items := answers[0].items;
    LeadingRows(items, |items|);
    assert items[..|items|] == items;
  }

  lemma EndsLater<T>(answers: seq<Answer<T>>, n: nat, k: nat, scrollable: bool, end: End)
    requires 0 < n <= |answers|
    ensures EndsAt(answers, n, k, scrollable, end) == EndsAt(answers[1..], n - 1, k, scrollable, end)
    ensures LastItems(answers, n, k) == LastItems(answers[1..], n - 1, k)
  {}

  /** The rows are those of the blocks that go on and of the items that decode of the answer after them. They end well
      exactly if that answer is a block that decodes, and is empty, has code 701, or has code 700 and the cursor does
      not scroll. */
  lemma {:induction false} RowsAndEnd<T>(answers: seq<Answer<T>>, n: nat, k: nat, scrollable: bool, end: End)
    requires n <= |answers| && (forall i :: 0 <= i < n ==> Goes(answers[i], scrollable))
    requires EndsAt(answers, n, k, scrollable, end)
    ensures Upcoming(answers, scrollable).end == end
    ensures RowsAre(Items(answers[..n]) + LastItems(answers, n, k), Upcoming(answers, scrollable).rows)
  {
    hide EndsAt, Upcoming, RowsAre, LastItems, Goes, Items;
    if n > 0 {
      var a, rest := answers[0], answers[1..];
      assert Goes(a, scrollable);
      GoesOn(answers, scrollable);
      EndsLater(answers, n, k, scrollable, end);
      RowsAndEnd(rest, n - 1, k, scrollable, end);
      ItemsMore(answers, n);
      var tail := Items(rest[..n - 1]) + LastItems(rest, n - 1, k);
      RowsConcat(a.items, tail, Leading(a.items), Upcoming(rest, scrollable).rows);
      assert a.items + tail == Items(answers[..n]) + LastItems(answers, n, k);
    } else {
      EndsNow(answers, k, scrollable, end);
    }
  }

  lemma ItemsMore<T>(answers: seq<Answer<T>>, n: nat)
    requires 0 < n <= |answers| && answers[0].Block?
    ensures Items(answers[..n]) == answers[0].items + Items(answers[1..][..n - 1])
  {
    assert answers[..n][1..] == answers[1..][..n - 1];
  }

  lemma EndsNow<T>(answers: seq<Answer<T>>, k: nat, scrollable: bool, end: End)
    requires EndsAt(answers, 0, k, scrollable, end)
    ensures Upcoming(answers, scrollable).end == end
    ensures RowsAre(Items(answers[..0]) + LastItems(answers, 0, k), Upcoming(answers, scrollable).rows)
  {
    if answers != [] && answers[0].Block? {
      var items := answers[0].items;
      LeadingRows(items, k);
      assert [] + items[..k] == items[..k];
      assert AllGood(items) <==> k == |items|;
    }
  }

  /** Every list of answers has such an end. */
  lemma {:induction false} SomeEnd<T>(answers: seq<Answer<T>>, scrollable: bool) returns (n: nat, k: nat, end: End)
    ensures n <= |answers| && (forall i :: 0 <= i < n ==> Goes(answers[i], scrollable))
    ensures EndsAt(answers, n, k, scrollable, end)
  {
    if answers == [] || !answers[0].Block? {
      n, k, end := 0, 0, Broken;
    } else if Goes(answers[0], scrollable) {
      n, k, end := SomeEnd(answers[1..], scrollable);
      n := n + 1;
    } else {
      n, k := 0, 0;
      var items := answers[0].items;
      while k < |items| && items[k].Good?
        invariant k <= |items| && forall i :: 0 <= i < k ==> items[i].Good?
      {
        k := k + 1;
      }
      end := if k < |items| then Broken else Finished;
    }
  }
}
