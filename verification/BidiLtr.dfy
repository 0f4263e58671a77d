/** The left-to-right machine computes exactly the levels of UAX #9. */
module BidiLtr {
  import opened BidiTables
  import opened BidiLevels

  /** A stretch of neutrals sees the same neighbours at each of its positions. */
  lemma {:induction false} SameNeighbours(w: seq<int>, c: nat, k: nat, base: int)
    requires c <= k <= |w|
    requires forall i :: c <= i < k ==> IsNeutral(w[i])
    ensures forall i :: c <= i < k ==> DirBefore(w, i, base) == DirBefore(w, k, base)
    ensures forall i :: c <= i < k ==> DirAfter(w, i, base) == DirAfter(w, k, base)
    decreases k - c
  {
    if c < k {
      SameNeighbours(w, c + 1, k, base);
      assert DirBefore(w, c + 1, base) == DirBefore(w, c, base);
    }
  }

  /** The positions before the open conditional run (all of them when none is open). */
  function Settled(r: Run): int { if r.cond >= 0 then r.cond else |r.levels| }

  /** What the machine knows after the first k types: its state tells the governing strong type and the
      direction of the last non-neutral, settled positions have their final level whatever follows, and
      the open run is a stretch of neutrals still at the base level. */
  predicate LtrInv(t: seq<int>, cur: int, k: nat, r: Run)
    requires TypesOk(t) && k <= |t|
  {
    var w := RuleW7(t, L, false);
    && |r.levels| == k && -1 <= r.cond < k && 0 <= r.sta <= 5
    && (StrongBefore(t, k, L, false) == L <==> r.sta <= 2)
    && (DirBefore(w, k, L) == L <==> r.sta == 0)
    && (r.sta == 2 || r.sta == 4 <==> r.cond >= 0)
    && (r.sta == 1 || r.sta == 3 || r.sta == 5 ==> k > 0 && !IsNeutral(t[k - 1]))
    && (forall i :: 0 <= i < Settled(r) ==> r.levels[i] == Uax9Levels(t, L, cur)[i])
    && (r.cond >= 0 ==> forall i :: r.cond <= i < k ==> IsNeutral(t[i]) && r.levels[i] == cur)
  }

  /** Once the type after the run is known, the run's positions take the common direction. */
  lemma RunResolved(t: seq<int>, cur: int, c: nat, k: nat)
    requires TypesOk(t) && c <= k <= |t|
    requires forall i :: c <= i < k ==> IsNeutral(t[i])
    ensures var w := RuleW7(t, L, false);
            forall i :: c <= i < k ==>
              Uax9Levels(t, L, cur)[i] ==
              cur + (if DirBefore(w, k, L) != L && DirAfter(w, k, L) != L then 1 else 0)
  {
    var w := RuleW7(t, L, false);
    SameNeighbours(w, c, k, L);
    DirectionIsLOrR(w, k);
    DirectionIsLOrR'(w, k);
  }

  lemma DirectionIsLOrR(w: seq<int>, k: nat)
    requires k <= |w|
    ensures DirBefore(w, k, L) == L || DirBefore(w, k, L) == R
  {}

  lemma DirectionIsLOrR'(w: seq<int>, k: nat)
    requires k <= |w|
    ensures DirAfter(w, k, L) == L || DirAfter(w, k, L) == R
    decreases |w| - k
  {}

  /** The table as a rule: where a type leads from a state. */
  function LtrEntry(s: int, x: int): int
  {
    if x == B || x == S || x == L then 0
    else if x == R then 3
    else if x == EN then (if s <= 2 then 0 else if s == 4 then 21 else 5)
    else if x == AN then (if s <= 1 then 1 else if s == 2 then 17 else if s == 4 then 21 else 5)
    else if s == 0 then 0 else if s <= 2 then 2 else 4
  }

  predicate LtrLike(tab: Table)
  {
    && TableOk(tab) && |tab| == 6
    && (forall s, x :: 0 <= s < 6 && 0 <= x < 8 ==> tab[s][x] == LtrEntry(s, x))
    && (forall s :: 0 <= s < 6 ==>
          && tab[s][ITIL] == (if s == 3 then 1 else if s == 1 || s == 5 then 2 else 0)
          && tab[s][ITCOND] == (if s == 2 || s == 4 then 1 else 0))
  }

  lemma LtrTableIsLike()
    ensures LtrLike(IMP_TAB_LTR)
  {
    Ok_LTR();
    var tab := IMP_TAB_LTR;
    forall s, x | 0 <= s < 6 && 0 <= x < 8 ensures tab[s][x] == LtrEntry(s, x) {
      var row := tab[s];
      assert s == 0 || s == 1 || s == 2 || s == 3 || s == 4 || s == 5;
      assert row[0] == 0 && row[1] == 0 && row[2] == 0 && row[3] == 3;
      assert row[4] == LtrEntry(s, 4) && row[5] == LtrEntry(s, 5);
      assert row[6] == LtrEntry(s, 6) && row[7] == LtrEntry(s, 7);
      assert x == 0 || x == 1 || x == 2 || x == 3 || x == 4 || x == 5 || x == 6 || x == 7;
    }
    forall s | 0 <= s < 6
      ensures tab[s][ITIL] == (if s == 3 then 1 else if s == 1 || s == 5 then 2 else 0)
      ensures tab[s][ITCOND] == (if s == 2 || s == 4 then 1 else 0)
    {
      assert s == 0 || s == 1 || s == 2 || s == 3 || s == 4 || s == 5;
    }
  }

  /** One step, position by position: what stays, what the open run becomes, what is appended. */
  predicate StepFacts(cur: int, r: Run, x: int, r': Run)
  {
    var e := LtrEntry(r.sta, x);
    var s := e % 16;
    var inc := if s == 3 then 1 else if s == 1 || s == 5 then 2 else 0;
    && r'.sta == s
    && |r'.levels| == |r.levels| + 1
    && r'.cond == (if s != 2 && s != 4 then -1 else if r.cond >= 0 then r.cond else |r.levels|)
    && (forall i :: 0 <= i < Settled(r) && i < |r.levels| ==> r'.levels[i] == r.levels[i])
    && (r.cond >= 0 ==> forall i :: r.cond <= i < |r.levels| ==>
          r'.levels[i] == if e >= 16 then cur + 1 else if s == 2 || s == 4 then r.levels[i] else cur + inc)
    && r'.levels[|r.levels|] == (if x == B then 0 else cur + inc)
  }

  lemma StepByFacts(tab: Table, cur: int, r: Run, x: int)
    requires LtrLike(tab) && RunOk(tab, r) && 0 <= x < 8
    ensures StepFacts(cur, r, x, Step(tab, cur, r, x))
  {
    var e := LtrEntry(r.sta, x);
    assert tab[r.sta][x] == e;
    assert e / 16 == 1 <==> e >= 16;
  }

  lemma LtrStep(t: seq<int>, cur: int, k: nat, r: Run, r': Run)
    requires TypesOk(t) && k < |t|
    requires LtrInv(t, cur, k, r) && StepFacts(cur, r, t[k], r')
    ensures LtrInv(t, cur, k + 1, r')
  {
    var w := RuleW7(t, L, false);
    assert !IsNeutral(t[k]) ==> Uax9Levels(t, L, cur)[k] == LevelOf(w[k], L, cur);
    hide Uax9Levels;
    if r.cond >= 0 {
      RunResolved(t, cur, r.cond, k);
    }
    if IsNeutral(t[k]) {
      RunResolved(t, cur, k, k + 1);
      DirectionIsLOrR(w, k);
    }
    assert DirBefore(w, k + 1, L) == if IsNeutral(w[k]) then DirBefore(w, k, L) else Direction(w[k], L);
  }

  lemma EmptyPrefix(tab: Table, t: seq<int>, cur: int)
    requires TypesOk(t) && TableOk(tab)
    ensures LtrInv(t, cur, 0, RunAll(tab, cur, t[..0]))
  {}

  lemma RunPrefix(tab: Table, cur: int, t: seq<int>, k: nat)
    requires TypesOk(t) && 0 < k <= |t| && TableOk(tab)
    ensures RunAll(tab, cur, t[..k]) == Step(tab, cur, RunAll(tab, cur, t[..k - 1]), t[k - 1])
  {
    hide Step, TableOk;
    assert t[..k][..k - 1] == t[..k - 1];
  }

  lemma {:induction false} LtrPrefix(tab: Table, t: seq<int>, cur: int, k: nat)
    requires TypesOk(t) && k <= |t| && LtrLike(tab)
    ensures LtrInv(t, cur, k, RunAll(tab, cur, t[..k]))
  {
    assert TableOk(tab);
    hide LtrLike, StepFacts, Step, Uax9Levels, LtrInv, TableOk;
    if k == 0 {
      EmptyPrefix(tab, t, cur);
    } else {
      LtrPrefix(tab, t, cur, k - 1);
      RunPrefix(tab, cur, t, k);
      hide RunAll;
      var r := RunAll(tab, cur, t[..k - 1]);
      StepByFacts(tab, cur, r, t[k - 1]);
      LtrStep(t, cur, k - 1, r, Step(tab, cur, r, t[k - 1]));
    }
  }

  lemma LtrWhole(tab: Table, t: seq<int>, cur: int)
    requires TypesOk(t) && LtrLike(tab)
    ensures MachineLevels(tab, cur, t) == Uax9Levels(t, L, cur)
  {
    assert TableOk(tab);
    hide LtrLike, LtrInv, StepFacts, RunAll, Step, Uax9Levels;
    LtrPrefix(tab, t, cur, |t|);
    assert t[..|t|] == t;
    var r := RunAll(tab, cur, t);
    StepByFacts(tab, cur, r, B);
    LtrEnd(t, cur, r, Step(tab, cur, r, B));
  }

  /** The closing separator settles the last run in the base direction. */
  lemma LtrEnd(t: seq<int>, cur: int, r: Run, r': Run)
    requires TypesOk(t) && LtrInv(t, cur, |t|, r) && StepFacts(cur, r, B, r')
    ensures r'.levels[..|t|] == Uax9Levels(t, L, cur)
  {
    hide Uax9Levels;
    if r.cond >= 0 {
      RunResolved(t, cur, r.cond, |t|);
    }
    forall i | 0 <= i < |t| ensures r'.levels[i] == Uax9Levels(t, L, cur)[i] {}
  }

  /** For every sequence of final types the one-pass machine with its back-patched run assigns the levels
      of rules W7, N1, N2 and I1. */
  lemma LtrMachineIsUax9(t: seq<int>, cur: int)
    requires TypesOk(t)
    ensures TableOk(IMP_TAB_LTR)
    ensures MachineLevels(IMP_TAB_LTR, cur, t) == Uax9Levels(t, L, cur)
  {
    LtrTableIsLike();
    LtrWhole(IMP_TAB_LTR, t, cur);
  }
}
