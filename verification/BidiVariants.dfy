/** The levels of the three other tables that insert no markers, told by rules over the whole text: the Windows
    compatible table and the two round-trip tables. */
module BidiVariants {
  import opened BidiTables
  import opened BidiLevels
  import opened BidiLtr

  // ------------------------------------------------------------------ looking back and ahead

  /** Going back from i over types in skip one comes to a type in stop. */
  ghost predicate Before(t: seq<int>, i: int, stop: set<int>, skip: set<int>)
    requires 0 <= i <= |t|
  {
    exists a :: 0 <= a < i && t[a] in stop && forall m :: a < m < i ==> t[m] in skip
  }

  /** Going on from i over types in skip one comes to a type in stop. */
  ghost predicate After(t: seq<int>, i: int, stop: set<int>, skip: set<int>)
    requires 0 <= i < |t|
  {
    exists b :: i < b < |t| && t[b] in stop && forall m :: i < m < b ==> t[m] in skip
  }

  lemma BeforeNext(t: seq<int>, k: nat, stop: set<int>, skip: set<int>)
    requires k < |t|
    ensures !Before(t, 0, stop, skip)
    ensures Before(t, k + 1, stop, skip) <==> t[k] in stop || (t[k] in skip && Before(t, k, stop, skip))
  {
    if Before(t, k + 1, stop, skip) && t[k] !in stop {
      var a :| 0 <= a < k + 1 && t[a] in stop && forall m :: a < m < k + 1 ==> t[m] in skip;
      assert a < k && t[k] in skip;
    }
    if Before(t, k, stop, skip) && t[k] in skip {
      var a :| 0 <= a < k && t[a] in stop && forall m :: a < m < k ==> t[m] in skip;
      assert forall m :: a < m < k + 1 ==> t[m] in skip;
    }
  }

  /** What comes after i, once the first type that is not skipped is known. */
  lemma AfterKnown(t: seq<int>, i: nat, k: nat, stop: set<int>, skip: set<int>)
    requires i < k <= |t| && (forall m :: i < m < k ==> t[m] in skip) && (k < |t| ==> t[k] !in skip)
    requires stop !! skip
    ensures After(t, i, stop, skip) <==> k < |t| && t[k] in stop
  {
    if After(t, i, stop, skip) {
      var b :| i < b < |t| && t[b] in stop && forall m :: i < m < b ==> t[m] in skip;
      assert b == k;
    }
  }

  // ------------------------------------------------------------------ one step of any table without insertion

  /** Entry e, leading to a row with level increment inc and conditional flag cond: what stays, what the open run
      becomes, what is appended. */
  predicate Taken(cur: int, r: Run, x: int, r': Run, e: int, inc: int, cond: int)
  {
    var open := if e / 16 == 0 then r.cond else -1;
    && r'.sta == e % 16
    && |r'.levels| == |r.levels| + 1
    && r'.cond == (if cond == 0 then -1 else if open >= 0 then open else |r.levels|)
    && (forall i :: 0 <= i < Settled(r) && i < |r.levels| ==> r'.levels[i] == r.levels[i])
    && (r.cond >= 0 ==> forall i :: r.cond <= i < |r.levels| ==>
          r'.levels[i] == if e / 16 == 1 then cur + 1
                          else if e / 16 == 2 || cond == 1 then r.levels[i] else cur + inc)
    && r'.levels[|r.levels|] == (if x == B then 0 else cur + inc)
  }

  lemma StepTaken(tab: Table, cur: int, r: Run, x: int)
    requires TableOk(tab) && Plain(tab) && RunOk(tab, r) && 0 <= x < 8
    ensures var e := tab[r.sta][x];
            && 0 <= e && e % 16 < |tab|
            && Taken(cur, r, x, Step(tab, cur, r, x), e, tab[e % 16][ITIL], tab[e % 16][ITCOND])
  {
    var e := tab[r.sta][x];
    assert EntryOk(tab, tab[r.sta][ITCOND], x, e) && RowActions(tab[r.sta], 2) && RowOk(tab, tab[e % 16]);
  }

  /** The machine after the first k types. */
  function RunTo(tab: Table, cur: int, t: seq<int>, k: nat): (r: Run)
    requires TableOk(tab) && TypesOk(t) && k <= |t|
    ensures RunOk(tab, r) && |r.levels| == k
  {
    if k == 0 then Run(0, -1, []) else Step(tab, cur, RunTo(tab, cur, t, k - 1), t[k - 1])
  }

  lemma {:induction false} RunsTo(tab: Table, cur: int, t: seq<int>, k: nat)
    requires TableOk(tab) && TypesOk(t) && k <= |t|
    ensures RunTo(tab, cur, t, k) == RunAll(tab, cur, t[..k])
  {
    hide TableOk, Step;
    if k > 0 {
      RunsTo(tab, cur, t, k - 1);
      assert t[..k][..k - 1] == t[..k - 1];
    }
  }

  /** The levels are those after the closing block separator. */
  lemma LevelsAtEnd(tab: Table, cur: int, t: seq<int>)
    requires TableOk(tab) && TypesOk(t)
    ensures MachineLevels(tab, cur, t) == Step(tab, cur, RunTo(tab, cur, t, |t|), B).levels[..|t|]
  {
    hide Step, RunAll;
    RunsTo(tab, cur, t, |t|);
    assert t[..|t|] == t;
  }

  // ------------------------------------------------------------------ Windows compatible, left to right

  /** Numbers stay two levels up even in left-to-right context, and a neutral is right to left exactly when R governs
      it and R or a number comes next. */
  ghost function WindowsLevel(t: seq<int>, i: int, cur: int): int
    requires 0 <= i < |t|
  {
    if t[i] == B then 0
    else if t[i] == S || t[i] == L then cur
    else if t[i] == R then cur + 1
    else if t[i] == EN || t[i] == AN then cur + 2
    else if Before(t, i, {R}, {EN, AN, W, N}) && After(t, i, {R, EN, AN}, {W, N}) then cur + 1
    else cur
  }

  function WindowsEntry(s: int, x: int): int
  {
    if x == B || x == S || x == L then 0
    else if x == R then 2
    else if x == EN || x == AN then (if s <= 1 then 1 else if s == 3 then 20 else 4)
    else if s <= 1 then 0 else 3
  }

  predicate WindowsLike(tab: Table)
  {
    && TableOk(tab) && Plain(tab) && |tab| == 5
    && (forall s, x :: 0 <= s < 5 && 0 <= x < 8 ==> tab[s][x] == WindowsEntry(s, x))
    && (forall s :: 0 <= s < 5 ==>
          && tab[s][ITIL] == (if s == 2 then 1 else if s == 1 || s == 4 then 2 else 0)
          && tab[s][ITCOND] == (if s == 3 then 1 else 0))
  }

  lemma WindowsTableIsLike()
    ensures WindowsLike(IMP_TAB_LTR_W)
  {
    Ok_LTR_W();
    Plain_LTR_W();
    var tab := IMP_TAB_LTR_W;
    forall s, x | 0 <= s < 5 && 0 <= x < 8 ensures tab[s][x] == WindowsEntry(s, x) {
      var row := tab[s];
      assert s == 0 || s == 1 || s == 2 || s == 3 || s == 4;
      assert row[0] == 0 && row[1] == 0 && row[2] == 0 && row[3] == 2;
      assert row[4] == WindowsEntry(s, 4) && row[5] == WindowsEntry(s, 5);
      assert row[6] == WindowsEntry(s, 6) && row[7] == WindowsEntry(s, 7);
      assert x == 0 || x == 1 || x == 2 || x == 3 || x == 4 || x == 5 || x == 6 || x == 7;
    }
    forall s | 0 <= s < 5
      ensures tab[s][ITIL] == (if s == 2 then 1 else if s == 1 || s == 4 then 2 else 0)
      ensures tab[s][ITCOND] == (if s == 3 then 1 else 0)
    {
      assert s == 0 || s == 1 || s == 2 || s == 3 || s == 4;
    }
  }

  /** What the state tells about the types read. */
  ghost predicate WindowsState(t: seq<int>, k: nat, r: Run)
    requires k <= |t|
  {
    && |r.levels| == k && -1 <= r.cond < k && 0 <= r.sta <= 4
    && (r.sta >= 2 <==> Before(t, k, {R}, {EN, AN, W, N}))
    && (r.sta == 3 <==> r.cond >= 0)
    && (r.sta == 2 || r.sta == 4 ==> k > 0 && !IsNeutral(t[k - 1]))
  }

  /** What is known of the open run. */
  ghost predicate WindowsPending(t: seq<int>, cur: int, k: nat, r: Run)
    requires k == |r.levels| <= |t| && -1 <= r.cond < k
  {
    && (r.cond >= 0 ==> forall i :: r.cond <= i < k ==>
          IsNeutral(t[i]) && Before(t, i, {R}, {EN, AN, W, N}) && r.levels[i] == cur)
  }

  ghost predicate WindowsInv(t: seq<int>, cur: int, k: nat, r: Run)
    requires k <= |t|
  {
    && WindowsState(t, k, r)
    && WindowsPending(t, cur, k, r)
    && forall i :: 0 <= i < Settled(r) ==> r.levels[i] == WindowsLevel(t, i, cur)
  }

  predicate WindowsStep(cur: int, r: Run, x: int, r': Run)
  {
    var e := WindowsEntry(r.sta, x);
    var s := e % 16;
    Taken(cur, r, x, r', e, if s == 2 then 1 else if s == 1 || s == 4 then 2 else 0, if s == 3 then 1 else 0)
  }

  lemma WindowsTaken(tab: Table, cur: int, r: Run, x: int)
    requires WindowsLike(tab) && RunOk(tab, r) && 0 <= x < 8
    ensures WindowsStep(cur, r, x, Step(tab, cur, r, x))
  {
    StepTaken(tab, cur, r, x);
    hide Taken, Step;
    assert tab[r.sta][x] == WindowsEntry(r.sta, x);
  }

  /** The neutrals of the open run, once the type after them is known. */
  lemma WindowsRun(t: seq<int>, cur: int, c: nat, k: nat)
    requires c <= k <= |t| && (k < |t| ==> !IsNeutral(t[k]))
    requires forall i :: c <= i < k ==> IsNeutral(t[i]) && Before(t, i, {R}, {EN, AN, W, N})
    ensures forall i :: c <= i < k ==>
              WindowsLevel(t, i, cur) == if k < |t| && t[k] in {R, EN, AN} then cur + 1 else cur
  {
    hide Before, After;
    forall i | c <= i < k ensures After(t, i, {R, EN, AN}, {W, N}) <==> k < |t| && t[k] in {R, EN, AN} {
      AfterKnown(t, i, k, {R, EN, AN}, {W, N});
    }
  }

  lemma WindowsKeepsState(t: seq<int>, cur: int, k: nat, r: Run, r': Run)
    requires TypesOk(t) && k < |t|
    requires WindowsState(t, k, r) && WindowsStep(cur, r, t[k], r')
    ensures WindowsState(t, k + 1, r')
  {
    hide Before, After;
    BeforeNext(t, k, {R}, {EN, AN, W, N});
  }

  lemma WindowsKeepsPending(t: seq<int>, cur: int, k: nat, r: Run, r': Run)
    requires TypesOk(t) && k < |t| && WindowsState(t, k, r) && WindowsState(t, k + 1, r')
    requires WindowsPending(t, cur, k, r) && WindowsStep(cur, r, t[k], r')
    ensures WindowsPending(t, cur, k + 1, r')
  {
    hide Before, After;
    BeforeNext(t, k, {R}, {EN, AN, W, N});
  }

  /** A character that leaves no run open has its level at once. */
  lemma WindowsCloses(t: seq<int>, cur: int, k: nat, r: Run, r': Run)
    requires TypesOk(t) && k < |t|
    requires WindowsState(t, k, r) && WindowsStep(cur, r, t[k], r') && r'.cond < 0
    ensures r'.levels[k] == WindowsLevel(t, k, cur)
  {
    hide Before, After;
    BeforeNext(t, k, {R}, {EN, AN, W, N});
  }

  /** What the step does to the open run when it closes it. */
  lemma WindowsRunCloses(t: seq<int>, cur: int, k: nat, r: Run, r': Run)
    requires TypesOk(t) && k < |t| && WindowsInv(t, cur, k, r)
    requires WindowsState(t, k + 1, r') && WindowsStep(cur, r, t[k], r')
    requires 0 <= r.cond < Settled(r')
    ensures forall i :: r.cond <= i < k ==> r'.levels[i] == WindowsLevel(t, i, cur)
  {
    hide Before, After, WindowsLevel, TypesOk;
    BeforeNext(t, k, {R}, {EN, AN, W, N});
    if r.cond >= 0 && !IsNeutral(t[k]) {
      WindowsRun(t, cur, r.cond, k);
    }
  }

  lemma WindowsKeepsSettled(t: seq<int>, cur: int, k: nat, r: Run, r': Run)
    requires TypesOk(t) && k < |t| && WindowsInv(t, cur, k, r)
    requires WindowsState(t, k + 1, r') && WindowsStep(cur, r, t[k], r')
    ensures forall i :: 0 <= i < Settled(r') ==> r'.levels[i] == WindowsLevel(t, i, cur)
  {
    hide Before, After, WindowsLevel, WindowsPending;
    if r'.cond < 0 {
      WindowsCloses(t, cur, k, r, r');
    }
    if 0 <= r.cond < Settled(r') {
      WindowsRunCloses(t, cur, k, r, r');
    }
  }

  lemma WindowsKeeps(t: seq<int>, cur: int, k: nat, r: Run, r': Run)
    requires TypesOk(t) && k < |t|
    requires WindowsInv(t, cur, k, r) && WindowsStep(cur, r, t[k], r')
    ensures WindowsInv(t, cur, k + 1, r')
  {
    hide WindowsStep, WindowsPending, WindowsLevel;
    WindowsKeepsState(t, cur, k, r, r');
    WindowsKeepsPending(t, cur, k, r, r');
    WindowsKeepsSettled(t, cur, k, r, r');
  }

  lemma {:induction false} WindowsPrefix(tab: Table, t: seq<int>, cur: int, k: nat)
    requires TypesOk(t) && k <= |t| && TableOk(tab) && WindowsLike(tab)
    ensures WindowsInv(t, cur, k, RunTo(tab, cur, t, k))
  {
    hide WindowsLike, WindowsStep, Step, WindowsInv, TableOk;
    if k == 0 {
      WindowsEmpty(t, cur);
    } else {
      WindowsPrefix(tab, t, cur, k - 1);
      var r := RunTo(tab, cur, t, k - 1);
      WindowsTaken(tab, cur, r, t[k - 1]);
      WindowsKeeps(t, cur, k - 1, r, Step(tab, cur, r, t[k - 1]));
    }
  }

  lemma WindowsEmpty(t: seq<int>, cur: int)
    ensures WindowsInv(t, cur, 0, Run(0, -1, []))
  {}

  lemma WindowsEnd(t: seq<int>, cur: int, r: Run, r': Run)
    requires WindowsInv(t, cur, |t|, r) && WindowsStep(cur, r, B, r')
    ensures forall i :: 0 <= i < |t| ==> r'.levels[i] == WindowsLevel(t, i, cur)
  {
    hide Before, After, WindowsLevel, TypesOk;
    if r.cond >= 0 {
      WindowsRun(t, cur, r.cond, |t|);
    }
  }

  /** The Windows compatible machine assigns these levels. */
  lemma WindowsMachine(t: seq<int>, cur: int)
    requires TypesOk(t)
    ensures TableOk(IMP_TAB_LTR_W)
    ensures forall i :: 0 <= i < |t| ==> MachineLevels(IMP_TAB_LTR_W, cur, t)[i] == WindowsLevel(t, i, cur)
  {
    WindowsTableIsLike();
    var tab := IMP_TAB_LTR_W;
    WindowsPrefix(tab, t, cur, |t|);
    LevelsAtEnd(tab, cur, t);
    var r := RunTo(tab, cur, t, |t|);
    WindowsTaken(tab, cur, r, B);
    hide WindowsLike, WindowsInv, WindowsStep, RunTo, Step, WindowsLevel, Plain;
    WindowsEnd(t, cur, r, Step(tab, cur, r, B));
  }

  // ------------------------------------------------------------------ round trip, left to right

  /** In a stretch of numbers and neutrals that is under way: behind an R, unless it begins with an AN, or from a
      neutral behind an AN on. */
  ghost predicate Trailing(t: seq<int>, i: int)
    requires 0 <= i < |t|
  {
    exists a :: 0 < a <= i && TrailStart(t, a) && forall m :: a <= m <= i ==> t[m] in {EN, AN, W, N}
  }

  predicate TrailStart(t: seq<int>, a: int)
    requires 0 < a < |t|
  {
    (t[a - 1] == R && t[a] != AN) || (t[a - 1] == AN && IsNeutral(t[a]))
  }

  /** A stretch under way stays right to left if R ends it, and goes back to the base level if not. */
  ghost function TripLtrLevel(t: seq<int>, i: int, cur: int): int
    requires 0 <= i < |t|
  {
    if t[i] == B then 0
    else if t[i] == S || t[i] == L then cur
    else if t[i] == R then cur + 1
    else if Trailing(t, i) then
      (if !After(t, i, {R}, {EN, AN, W, N}) then cur else if IsNeutral(t[i]) then cur + 1 else cur + 2)
    else if t[i] == AN then cur + 2
    else cur
  }

  lemma TrailingNext(t: seq<int>, k: nat)
    requires k < |t|
    ensures Trailing(t, k) <==>
            t[k] in {EN, AN, W, N} && k > 0 && (Trailing(t, k - 1) || TrailStart(t, k))
  {
    if Trailing(t, k) {
      var a :| 0 < a <= k && TrailStart(t, a) && forall m :: a <= m <= k ==> t[m] in {EN, AN, W, N};
      if a < k {
        assert Trailing(t, k - 1);
      }
    }
    if k > 0 && Trailing(t, k - 1) && t[k] in {EN, AN, W, N} {
      var a :| 0 < a <= k - 1 && TrailStart(t, a) && forall m :: a <= m <= k - 1 ==> t[m] in {EN, AN, W, N};
      assert forall m :: a <= m <= k ==> t[m] in {EN, AN, W, N};
    }
  }

  function TripLtrEntry(s: int, x: int): int
  {
    if x == B || x == S || x == L then 0
    else if x == R then (if s >= 3 then 34 else 2)
    else if x == EN then (if s <= 1 then 0 else 4)
    else if x == AN then (if s <= 2 then 1 else 4)
    else if s == 0 then 0 else 3
  }

  function TripLtrIncrement(s: int): int { if s == 2 || s == 3 then 1 else if s == 1 || s == 4 then 2 else 0 }
  function TripLtrOpen(s: int): int { if s == 3 || s == 4 then 1 else 0 }

  predicate TripLtrLike(tab: Table)
  {
    && TableOk(tab) && Plain(tab) && |tab| == 5
    && (forall s, x :: 0 <= s < 5 && 0 <= x < 8 ==> tab[s][x] == TripLtrEntry(s, x))
    && (forall s :: 0 <= s < 5 ==> tab[s][ITIL] == TripLtrIncrement(s) && tab[s][ITCOND] == TripLtrOpen(s))
  }

  lemma TripLtrTableIsLike()
    ensures TripLtrLike(IMP_TAB_LTR_R)
  {
    Ok_LTR_R();
    Plain_LTR_R();
    var tab := IMP_TAB_LTR_R;
    forall s, x | 0 <= s < 5 && 0 <= x < 8 ensures tab[s][x] == TripLtrEntry(s, x) {
      var row := tab[s];
      assert s == 0 || s == 1 || s == 2 || s == 3 || s == 4;
      assert row[0] == TripLtrEntry(s, 0) && row[1] == TripLtrEntry(s, 1) && row[2] == TripLtrEntry(s, 2);
      assert row[3] == TripLtrEntry(s, 3) && row[4] == TripLtrEntry(s, 4) && row[5] == TripLtrEntry(s, 5);
      assert row[6] == TripLtrEntry(s, 6) && row[7] == TripLtrEntry(s, 7);
      assert x == 0 || x == 1 || x == 2 || x == 3 || x == 4 || x == 5 || x == 6 || x == 7;
    }
    forall s | 0 <= s < 5 ensures tab[s][ITIL] == TripLtrIncrement(s) && tab[s][ITCOND] == TripLtrOpen(s) {
      assert s == 0 || s == 1 || s == 2 || s == 3 || s == 4;
    }
  }

  /** What the state tells about the types read. */
  ghost predicate TripLtrState(t: seq<int>, k: nat, r: Run)
    requires k <= |t|
  {
    && |r.levels| == k && -1 <= r.cond < k && 0 <= r.sta <= 4
    && (r.sta >= 3 <==> k > 0 && Trailing(t, k - 1))
    && (r.sta == 2 <==> k > 0 && t[k - 1] == R)
    && (r.sta == 1 <==> k > 0 && t[k - 1] == AN && !Trailing(t, k - 1))
    && (r.sta == 3 ==> IsNeutral(t[k - 1])) && (r.sta == 4 ==> !IsNeutral(t[k - 1]))
    && (r.sta >= 3 <==> r.cond >= 0)
  }

  /** What is known of the open run. */
  ghost predicate TripLtrPending(t: seq<int>, cur: int, k: nat, r: Run)
    requires k == |r.levels| <= |t| && -1 <= r.cond < k
  {
    && (r.cond >= 0 ==> forall i :: r.cond <= i < k ==>
          && t[i] in {EN, AN, W, N} && Trailing(t, i)
          && r.levels[i] == if IsNeutral(t[i]) then cur + 1 else cur + 2)
  }

  ghost predicate TripLtrInv(t: seq<int>, cur: int, k: nat, r: Run)
    requires k <= |t|
  {
    && TripLtrState(t, k, r)
    && TripLtrPending(t, cur, k, r)
    && forall i :: 0 <= i < Settled(r) ==> r.levels[i] == TripLtrLevel(t, i, cur)
  }

  predicate TripLtrStep(cur: int, r: Run, x: int, r': Run)
  {
    var e := TripLtrEntry(r.sta, x);
    Taken(cur, r, x, r', e, TripLtrIncrement(e % 16), TripLtrOpen(e % 16))
  }

  lemma TripLtrTaken(tab: Table, cur: int, r: Run, x: int)
    requires TripLtrLike(tab) && RunOk(tab, r) && 0 <= x < 8
    ensures TripLtrStep(cur, r, x, Step(tab, cur, r, x))
  {
    StepTaken(tab, cur, r, x);
    hide Taken, Step;
    assert tab[r.sta][x] == TripLtrEntry(r.sta, x);
  }

  lemma TripLtrRun(t: seq<int>, cur: int, c: nat, k: nat)
    requires c <= k <= |t| && (k < |t| ==> t[k] !in {EN, AN, W, N})
    requires forall i :: c <= i < k ==> t[i] in {EN, AN, W, N} && Trailing(t, i)
    ensures forall i :: c <= i < k ==>
              TripLtrLevel(t, i, cur) ==
              if k == |t| || t[k] != R then cur else if IsNeutral(t[i]) then cur + 1 else cur + 2
  {
    hide After, Trailing;
    forall i | c <= i < k ensures After(t, i, {R}, {EN, AN, W, N}) <==> k < |t| && t[k] == R {
      AfterKnown(t, i, k, {R}, {EN, AN, W, N});
    }
  }

  lemma TripLtrKeepsState(t: seq<int>, cur: int, k: nat, r: Run, r': Run)
    requires TypesOk(t) && k < |t|
    requires TripLtrState(t, k, r) && TripLtrStep(cur, r, t[k], r')
    ensures TripLtrState(t, k + 1, r')
  {
    hide Trailing, After;
    TrailingNext(t, k);
  }

  lemma TripLtrKeepsPending(t: seq<int>, cur: int, k: nat, r: Run, r': Run)
    requires TypesOk(t) && k < |t| && TripLtrState(t, k, r) && TripLtrState(t, k + 1, r')
    requires TripLtrPending(t, cur, k, r) && TripLtrStep(cur, r, t[k], r')
    ensures TripLtrPending(t, cur, k + 1, r')
  {
    hide Trailing, After;
    TrailingNext(t, k);
  }

  /** A character that leaves no run open has its level at once. */
  lemma TripLtrCloses(t: seq<int>, cur: int, k: nat, r: Run, r': Run)
    requires TypesOk(t) && k < |t|
    requires TripLtrState(t, k, r) && TripLtrStep(cur, r, t[k], r') && r'.cond < 0
    ensures r'.levels[k] == TripLtrLevel(t, k, cur)
  {
    hide Trailing, After;
    TrailingNext(t, k);
  }

  /** What the step does to the open run when it closes it. */
  lemma TripLtrRunCloses(t: seq<int>, cur: int, k: nat, r: Run, r': Run)
    requires TypesOk(t) && k < |t| && TripLtrInv(t, cur, k, r)
    requires TripLtrState(t, k + 1, r') && TripLtrStep(cur, r, t[k], r')
    requires 0 <= r.cond < Settled(r')
    ensures forall i :: r.cond <= i < k ==> r'.levels[i] == TripLtrLevel(t, i, cur)
  {
    hide Trailing, After, TripLtrLevel, TypesOk;
    TrailingNext(t, k);
    if r.cond >= 0 && t[k] !in {EN, AN, W, N} {
      TripLtrRun(t, cur, r.cond, k);
    }
  }

  lemma TripLtrKeepsSettled(t: seq<int>, cur: int, k: nat, r: Run, r': Run)
    requires TypesOk(t) && k < |t| && TripLtrInv(t, cur, k, r)
    requires TripLtrState(t, k + 1, r') && TripLtrStep(cur, r, t[k], r')
    ensures forall i :: 0 <= i < Settled(r') ==> r'.levels[i] == TripLtrLevel(t, i, cur)
  {
    hide Trailing, After, TripLtrLevel, TripLtrPending;
    if r'.cond < 0 {
      TripLtrCloses(t, cur, k, r, r');
    }
    if 0 <= r.cond < Settled(r') {
      TripLtrRunCloses(t, cur, k, r, r');
    }
  }

  lemma TripLtrKeeps(t: seq<int>, cur: int, k: nat, r: Run, r': Run)
    requires TypesOk(t) && k < |t|
    requires TripLtrInv(t, cur, k, r) && TripLtrStep(cur, r, t[k], r')
    ensures TripLtrInv(t, cur, k + 1, r')
  {
    hide TripLtrStep, TripLtrPending, TripLtrLevel;
    TripLtrKeepsState(t, cur, k, r, r');
    TripLtrKeepsPending(t, cur, k, r, r');
    TripLtrKeepsSettled(t, cur, k, r, r');
  }

  lemma {:induction false} TripLtrPrefix(tab: Table, t: seq<int>, cur: int, k: nat)
    requires TypesOk(t) && k <= |t| && TableOk(tab) && TripLtrLike(tab)
    ensures TripLtrInv(t, cur, k, RunTo(tab, cur, t, k))
  {
    hide TripLtrLike, TripLtrStep, Step, TripLtrInv, TableOk;
    if k == 0 {
      TripLtrEmpty(t, cur);
    } else {
      TripLtrPrefix(tab, t, cur, k - 1);
      var r := RunTo(tab, cur, t, k - 1);
      TripLtrTaken(tab, cur, r, t[k - 1]);
      TripLtrKeeps(t, cur, k - 1, r, Step(tab, cur, r, t[k - 1]));
    }
  }

  lemma TripLtrEmpty(t: seq<int>, cur: int)
    ensures TripLtrInv(t, cur, 0, Run(0, -1, []))
  {}

  lemma TripLtrEnd(t: seq<int>, cur: int, r: Run, r': Run)
    requires TripLtrInv(t, cur, |t|, r) && TripLtrStep(cur, r, B, r')
    ensures forall i :: 0 <= i < |t| ==> r'.levels[i] == TripLtrLevel(t, i, cur)
  {
    hide Before, After, Trailing, TripLtrLevel, TypesOk;
    if r.cond >= 0 {
      TripLtrRun(t, cur, r.cond, |t|);
    }
  }

  /** The left-to-right round-trip machine assigns these levels. */
  lemma TripLtrMachine(t: seq<int>, cur: int)
    requires TypesOk(t)
    ensures TableOk(IMP_TAB_LTR_R)
    ensures forall i :: 0 <= i < |t| ==> MachineLevels(IMP_TAB_LTR_R, cur, t)[i] == TripLtrLevel(t, i, cur)
  {
    TripLtrTableIsLike();
    var tab := IMP_TAB_LTR_R;
    TripLtrPrefix(tab, t, cur, |t|);
    LevelsAtEnd(tab, cur, t);
    var r := RunTo(tab, cur, t, |t|);
    TripLtrTaken(tab, cur, r, B);
    hide TripLtrLike, TripLtrInv, TripLtrStep, RunTo, Step, TripLtrLevel, Plain;
    TripLtrEnd(t, cur, r, Step(tab, cur, r, B));
  }

  // ------------------------------------------------------------------ round trip, right to left

  /** A neutral is left to right behind L, over neutrals and European numbers, when L or a European number comes
      next, and elsewhere behind a European number when L comes next over neutrals and European numbers. */
  ghost function TripRtlLevel(t: seq<int>, i: int, cur: int): int
    requires 0 <= i < |t|
  {
    if t[i] == B then 0
    else if t[i] == S || t[i] == R then cur
    else if t[i] in {L, EN, AN} then cur + 1
    else if Before(t, i, {L}, {EN, W, N}) then
      (if After(t, i, {L, EN}, {W, N}) then cur + 1 else cur)
    else if Before(t, i, {EN}, {EN, W, N}) && After(t, i, {L}, {EN, W, N}) then cur + 1
    else cur
  }

  function TripRtlEntry(s: int, x: int): int
  {
    if x == B || x == S || x == R then (if s == 1 || s == 5 then 32 else 0)
    else if x == L then 3
    else if x == EN then (if s == 3 || s == 4 then 3 else 1)
    else if x == AN then (if s == 1 || s >= 4 then 34 else 2)
    else if s == 1 || s == 5 then 5 else if s >= 3 then 4 else 0
  }

  function TripRtlIncrement(s: int): int { if 1 <= s <= 3 then 1 else 0 }
  function TripRtlOpen(s: int): int { if s == 1 || s >= 4 then 1 else 0 }

  predicate TripRtlLike(tab: Table)
  {
    && TableOk(tab) && Plain(tab) && |tab| == 6
    && (forall s, x :: 0 <= s < 6 && 0 <= x < 8 ==> tab[s][x] == TripRtlEntry(s, x))
    && (forall s :: 0 <= s < 6 ==> tab[s][ITIL] == TripRtlIncrement(s) && tab[s][ITCOND] == TripRtlOpen(s))
  }

  lemma TripRtlTableIsLike()
    ensures TripRtlLike(IMP_TAB_RTL_R)
  {
    Ok_RTL_R();
    Plain_RTL_R();
    var tab := IMP_TAB_RTL_R;
    forall s, x | 0 <= s < 6 && 0 <= x < 8 ensures tab[s][x] == TripRtlEntry(s, x) {
      var row := tab[s];
      assert s == 0 || s == 1 || s == 2 || s == 3 || s == 4 || s == 5;
      assert row[0] == TripRtlEntry(s, 0) && row[1] == TripRtlEntry(s, 1) && row[2] == TripRtlEntry(s, 2);
      assert row[3] == TripRtlEntry(s, 3) && row[4] == TripRtlEntry(s, 4) && row[5] == TripRtlEntry(s, 5);
      assert row[6] == TripRtlEntry(s, 6) && row[7] == TripRtlEntry(s, 7);
      assert x == 0 || x == 1 || x == 2 || x == 3 || x == 4 || x == 5 || x == 6 || x == 7;
    }
    forall s | 0 <= s < 6 ensures tab[s][ITIL] == TripRtlIncrement(s) && tab[s][ITCOND] == TripRtlOpen(s) {
      assert s == 0 || s == 1 || s == 2 || s == 3 || s == 4 || s == 5;
    }
  }

  /** What the state tells about the types read. */
  ghost predicate TripRtlState(t: seq<int>, k: nat, r: Run)
    requires k <= |t|
  {
    && |r.levels| == k && -1 <= r.cond < k && 0 <= r.sta <= 5
    && (r.sta == 3 || r.sta == 4 <==> Before(t, k, {L}, {EN, W, N}))
    && (r.sta == 1 || r.sta == 5 <==> Before(t, k, {EN}, {EN, W, N}) && !Before(t, k, {L}, {EN, W, N}))
    && (r.sta == 1 || r.sta == 3 ==> !IsNeutral(t[k - 1]))
    && (r.sta == 4 || r.sta == 5 ==> IsNeutral(t[k - 1]))
    && (r.sta == 1 || r.sta >= 4 <==> r.cond >= 0)
  }

  /** What is known of the open run. */
  ghost predicate TripRtlPending(t: seq<int>, cur: int, k: nat, r: Run)
    requires k == |r.levels| <= |t| && -1 <= r.cond < k
  {
    && (r.sta == 4 && r.cond >= 0 ==> forall i :: r.cond <= i < k ==>
          IsNeutral(t[i]) && Before(t, i, {L}, {EN, W, N}) && r.levels[i] == cur)
    && (r.sta != 4 && r.cond >= 0 ==> forall i :: r.cond <= i < k ==>
          && t[i] in {EN, W, N} && !Before(t, i, {L}, {EN, W, N})
          && (IsNeutral(t[i]) ==> Before(t, i, {EN}, {EN, W, N}))
          && r.levels[i] == if IsNeutral(t[i]) then cur else cur + 1)
  }

  ghost predicate TripRtlInv(t: seq<int>, cur: int, k: nat, r: Run)
    requires k <= |t|
  {
    && TripRtlState(t, k, r)
    && TripRtlPending(t, cur, k, r)
    && forall i :: 0 <= i < Settled(r) ==> r.levels[i] == TripRtlLevel(t, i, cur)
  }

  predicate TripRtlStep(cur: int, r: Run, x: int, r': Run)
  {
    var e := TripRtlEntry(r.sta, x);
    Taken(cur, r, x, r', e, TripRtlIncrement(e % 16), TripRtlOpen(e % 16))
  }

  lemma TripRtlTaken(tab: Table, cur: int, r: Run, x: int)
    requires TripRtlLike(tab) && RunOk(tab, r) && 0 <= x < 8
    ensures TripRtlStep(cur, r, x, Step(tab, cur, r, x))
  {
    StepTaken(tab, cur, r, x);
    hide Taken, Step;
    assert tab[r.sta][x] == TripRtlEntry(r.sta, x);
  }

  /** Neutrals behind L, once the type after them is known. */
  lemma TripRtlAfterL(t: seq<int>, cur: int, c: nat, k: nat)
    requires c <= k <= |t| && (k < |t| ==> !IsNeutral(t[k]))
    requires forall i :: c <= i < k ==> IsNeutral(t[i]) && Before(t, i, {L}, {EN, W, N})
    ensures forall i :: c <= i < k ==>
              TripRtlLevel(t, i, cur) == if k < |t| && t[k] in {L, EN} then cur + 1 else cur
  {
    hide Before, After;
    forall i | c <= i < k ensures After(t, i, {L, EN}, {W, N}) <==> k < |t| && t[k] in {L, EN} {
      AfterKnown(t, i, k, {L, EN}, {W, N});
    }
  }

  /** A stretch that a European number began, once the type after it is known. */
  lemma TripRtlAfterEN(t: seq<int>, cur: int, c: nat, k: nat)
    requires c <= k <= |t| && (k < |t| ==> t[k] !in {EN, W, N})
    requires forall i :: c <= i < k ==>
               && t[i] in {EN, W, N} && !Before(t, i, {L}, {EN, W, N})
               && (IsNeutral(t[i]) ==> Before(t, i, {EN}, {EN, W, N}))
    ensures forall i :: c <= i < k ==>
              TripRtlLevel(t, i, cur) == if t[i] == EN || (k < |t| && t[k] == L) then cur + 1 else cur
  {
    hide Before, After;
    forall i | c <= i < k ensures After(t, i, {L}, {EN, W, N}) <==> k < |t| && t[k] == L {
      AfterKnown(t, i, k, {L}, {EN, W, N});
    }
  }

  lemma TripRtlRun(t: seq<int>, cur: int, c: nat, k: nat, r: Run)
    requires k <= |t| && TripRtlInv(t, cur, k, r) && r.cond == c
    requires k < |t| ==> t[k] !in (if r.sta == 4 then {W, N} else {EN, W, N})
    ensures forall i :: c <= i < k ==>
              TripRtlLevel(t, i, cur) ==
              if r.sta == 4 then (if k < |t| && t[k] in {L, EN} then cur + 1 else cur)
              else if t[i] == EN || (k < |t| && t[k] == L) then cur + 1 else cur
  {
    hide TripRtlLevel;
    if r.sta == 4 {
      TripRtlAfterL(t, cur, c, k);
    } else {
      TripRtlAfterEN(t, cur, c, k);
    }
  }

  lemma TripRtlKeepsState(t: seq<int>, cur: int, k: nat, r: Run, r': Run)
    requires TypesOk(t) && k < |t|
    requires TripRtlState(t, k, r) && TripRtlStep(cur, r, t[k], r')
    ensures TripRtlState(t, k + 1, r')
  {
    hide Before, After;
    BeforeNext(t, k, {L}, {EN, W, N});
    BeforeNext(t, k, {EN}, {EN, W, N});
  }

  lemma TripRtlKeepsPending(t: seq<int>, cur: int, k: nat, r: Run, r': Run)
    requires TypesOk(t) && k < |t| && TripRtlState(t, k, r) && TripRtlState(t, k + 1, r')
    requires TripRtlPending(t, cur, k, r) && TripRtlStep(cur, r, t[k], r')
    ensures TripRtlPending(t, cur, k + 1, r')
  {
    hide Before, After;
    BeforeNext(t, k, {L}, {EN, W, N});
    BeforeNext(t, k, {EN}, {EN, W, N});
  }

  /** A character that leaves no run open has its level at once. */
  lemma TripRtlCloses(t: seq<int>, cur: int, k: nat, r: Run, r': Run)
    requires TypesOk(t) && k < |t|
    requires TripRtlState(t, k, r) && TripRtlStep(cur, r, t[k], r') && r'.cond < 0
    ensures r'.levels[k] == TripRtlLevel(t, k, cur)
  {
    hide Before, After;
    BeforeNext(t, k, {L}, {EN, W, N});
    BeforeNext(t, k, {EN}, {EN, W, N});
  }

  /** What the step does to the open run when it closes it. */
  lemma TripRtlRunCloses(t: seq<int>, cur: int, k: nat, r: Run, r': Run)
    requires TypesOk(t) && k < |t| && TripRtlInv(t, cur, k, r)
    requires TripRtlState(t, k + 1, r') && TripRtlStep(cur, r, t[k], r')
    requires 0 <= r.cond < Settled(r')
    ensures forall i :: r.cond <= i < k ==> r'.levels[i] == TripRtlLevel(t, i, cur)
  {
    hide Before, After, TripRtlLevel, TypesOk;
    BeforeNext(t, k, {L}, {EN, W, N});
    BeforeNext(t, k, {EN}, {EN, W, N});
    if r.cond >= 0 && t[k] !in (if r.sta == 4 then {W, N} else {EN, W, N}) {
      TripRtlRun(t, cur, r.cond, k, r);
    }
  }

  lemma TripRtlKeepsSettled(t: seq<int>, cur: int, k: nat, r: Run, r': Run)
    requires TypesOk(t) && k < |t| && TripRtlInv(t, cur, k, r)
    requires TripRtlState(t, k + 1, r') && TripRtlStep(cur, r, t[k], r')
    ensures forall i :: 0 <= i < Settled(r') ==> r'.levels[i] == TripRtlLevel(t, i, cur)
  {
    hide Before, After, TripRtlLevel, TripRtlPending;
    if r'.cond < 0 {
      TripRtlCloses(t, cur, k, r, r');
    }
    if 0 <= r.cond < Settled(r') {
      TripRtlRunCloses(t, cur, k, r, r');
    }
  }

  lemma TripRtlKeeps(t: seq<int>, cur: int, k: nat, r: Run, r': Run)
    requires TypesOk(t) && k < |t|
    requires TripRtlInv(t, cur, k, r) && TripRtlStep(cur, r, t[k], r')
    ensures TripRtlInv(t, cur, k + 1, r')
  {
    hide TripRtlStep, TripRtlPending, TripRtlLevel;
    TripRtlKeepsState(t, cur, k, r, r');
    TripRtlKeepsPending(t, cur, k, r, r');
    TripRtlKeepsSettled(t, cur, k, r, r');
  }

  lemma {:induction false} TripRtlPrefix(tab: Table, t: seq<int>, cur: int, k: nat)
    requires TypesOk(t) && k <= |t| && TableOk(tab) && TripRtlLike(tab)
    ensures TripRtlInv(t, cur, k, RunTo(tab, cur, t, k))
  {
    hide TripRtlLike, TripRtlStep, Step, TripRtlInv, TableOk;
    if k == 0 {
      TripRtlEmpty(t, cur);
    } else {
      TripRtlPrefix(tab, t, cur, k - 1);
      var r := RunTo(tab, cur, t, k - 1);
      TripRtlTaken(tab, cur, r, t[k - 1]);
      TripRtlKeeps(t, cur, k - 1, r, Step(tab, cur, r, t[k - 1]));
    }
  }

  lemma TripRtlEmpty(t: seq<int>, cur: int)
    ensures TripRtlInv(t, cur, 0, Run(0, -1, []))
  {}

  lemma TripRtlEnd(t: seq<int>, cur: int, r: Run, r': Run)
    requires TripRtlInv(t, cur, |t|, r) && TripRtlStep(cur, r, B, r')
    ensures forall i :: 0 <= i < |t| ==> r'.levels[i] == TripRtlLevel(t, i, cur)
  {
    hide Before, After, TripRtlLevel, TypesOk;
    if r.cond >= 0 {
      TripRtlRun(t, cur, r.cond, |t|, r);
    }
  }

  /** The right-to-left round-trip machine assigns these levels. */
  lemma TripRtlMachine(t: seq<int>, cur: int)
    requires TypesOk(t)
    ensures TableOk(IMP_TAB_RTL_R)
    ensures forall i :: 0 <= i < |t| ==> MachineLevels(IMP_TAB_RTL_R, cur, t)[i] == TripRtlLevel(t, i, cur)
  {
    TripRtlTableIsLike();
    var tab := IMP_TAB_RTL_R;
    TripRtlPrefix(tab, t, cur, |t|);
    LevelsAtEnd(tab, cur, t);
    var r := RunTo(tab, cur, t, |t|);
    TripRtlTaken(tab, cur, r, B);
    hide TripRtlLike, TripRtlInv, TripRtlStep, RunTo, Step, TripRtlLevel, Plain;
    TripRtlEnd(t, cur, r, Step(tab, cur, r, B));
  }
}
