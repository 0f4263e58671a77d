/** The right-to-left machine lets an AN end the reach of an L. It computes the levels of UAX #9 under that
    reading of rule W7, and the levels of UAX #9 itself exactly on the texts without a cut-off number. */
module BidiRtl {
  import opened BidiTables
  import opened BidiLevels
  import opened BidiLtr

  function MachineReading(t: seq<int>, cur: int): (l: seq<int>)
    ensures |l| == |t|
  {
    Levels(t, R, cur, true)
  }

  lemma DirectionIsLOrR(w: seq<int>, k: nat)
    requires k <= |w|
    ensures DirBefore(w, k, R) == L || DirBefore(w, k, R) == R
  {}

  lemma DirectionIsLOrR'(w: seq<int>, k: nat)
    requires k <= |w|
    ensures DirAfter(w, k, R) == L || DirAfter(w, k, R) == R
    decreases |w| - k
  {}

  lemma RunResolved(t: seq<int>, cur: int, anEnds: bool, c: nat, k: nat)
    requires TypesOk(t) && c <= k <= |t|
    requires forall i :: c <= i < k ==> IsNeutral(t[i])
    ensures var w := RuleW7(t, R, anEnds);
            forall i :: c <= i < k ==>
              Levels(t, R, cur, anEnds)[i] ==
              cur + (if DirBefore(w, k, R) == L && DirAfter(w, k, R) == L then 1 else 0)
  {
    var w := RuleW7(t, R, anEnds);
    SameNeighbours(w, c, k, R);
    DirectionIsLOrR(w, k);
    DirectionIsLOrR'(w, k);
  }

  predicate RtlInv(t: seq<int>, cur: int, k: nat, r: Run)
    requires TypesOk(t) && k <= |t|
  {
    var w := RuleW7(t, R, true);
    && |r.levels| == k && -1 <= r.cond < k && 0 <= r.sta <= 3
    && (StrongBefore(t, k, R, true) == L <==> r.sta >= 2)
    && (DirBefore(w, k, R) == L <==> r.sta >= 2)
    && (r.sta == 3 <==> r.cond >= 0)
    && (r.sta == 1 || r.sta == 2 ==> k > 0 && !IsNeutral(t[k - 1]))
    && (forall i :: 0 <= i < Settled(r) ==> r.levels[i] == MachineReading(t, cur)[i])
    && (r.cond >= 0 ==> forall i :: r.cond <= i < k ==> IsNeutral(t[i]) && r.levels[i] == cur)
  }

  /** The table as a rule: where a type leads from a state. */
  function RtlEntry(s: int, x: int): int
  {
    if x == B || x == S || x == R then 0
    else if x == L then 2
    else if x == EN then (if s <= 1 then 1 else 2)
    else if x == AN then (if s == 3 then 33 else 1)
    else if s <= 1 then 0 else 3
  }

  predicate RtlLike(tab: Table)
  {
    && TableOk(tab) && |tab| == 4
    && (forall s, x :: 0 <= s < 4 && 0 <= x < 8 ==> tab[s][x] == RtlEntry(s, x))
    && (forall s :: 0 <= s < 4 ==>
          && tab[s][ITIL] == (if s == 1 || s == 2 then 1 else 0)
          && tab[s][ITCOND] == (if s == 3 then 1 else 0))
  }

  lemma RtlTableIsLike()
    ensures RtlLike(IMP_TAB_RTL)
  {
    Ok_RTL();
    var tab := IMP_TAB_RTL;
    forall s, x | 0 <= s < 4 && 0 <= x < 8 ensures tab[s][x] == RtlEntry(s, x) {
      var row := tab[s];
      assert s == 0 || s == 1 || s == 2 || s == 3;
      assert row[0] == 0 && row[1] == 0 && row[2] == 2 && row[3] == 0;
      assert row[4] == RtlEntry(s, 4) && row[5] == RtlEntry(s, 5);
      assert row[6] == RtlEntry(s, 6) && row[7] == RtlEntry(s, 7);
      assert x == 0 || x == 1 || x == 2 || x == 3 || x == 4 || x == 5 || x == 6 || x == 7;
    }
    forall s | 0 <= s < 4
      ensures tab[s][ITIL] == (if s == 1 || s == 2 then 1 else 0)
      ensures tab[s][ITCOND] == (if s == 3 then 1 else 0)
    {
      assert s == 0 || s == 1 || s == 2 || s == 3;
    }
  }

  /** One step, position by position: what stays, what the open run becomes, what is appended. */
  predicate StepFacts(cur: int, r: Run, x: int, r': Run)
  {
    var e := RtlEntry(r.sta, x);
    var s := e % 16;
    var inc := if s == 1 || s == 2 then 1 else 0;
    && r'.sta == s
    && |r'.levels| == |r.levels| + 1
    && r'.cond == (if s != 3 then -1 else if r.cond >= 0 then r.cond else |r.levels|)
    && (forall i :: 0 <= i < Settled(r) && i < |r.levels| ==> r'.levels[i] == r.levels[i])
    && (r.cond >= 0 ==> forall i :: r.cond <= i < |r.levels| ==>
          r'.levels[i] == if e >= 32 || s == 3 then r.levels[i] else cur + inc)
    && r'.levels[|r.levels|] == (if x == B then 0 else cur + inc)
  }

  lemma StepByFacts(tab: Table, cur: int, r: Run, x: int)
    requires RtlLike(tab) && RunOk(tab, r) && 0 <= x < 8
    ensures StepFacts(cur, r, x, Step(tab, cur, r, x))
  {
    var e := RtlEntry(r.sta, x);
    assert tab[r.sta][x] == e;
    assert e / 16 == 2 <==> e >= 32;
  }

  lemma RtlStep(t: seq<int>, cur: int, k: nat, r: Run, r': Run)
    requires TypesOk(t) && k < |t|
    requires RtlInv(t, cur, k, r) && StepFacts(cur, r, t[k], r')
    ensures RtlInv(t, cur, k + 1, r')
  {
    var w := RuleW7(t, R, true);
    assert !IsNeutral(t[k]) ==> MachineReading(t, cur)[k] == LevelOf(w[k], R, cur);
    hide MachineReading;
    if r.cond >= 0 {
      RunReading(t, cur, r.cond, k);
    }
    if IsNeutral(t[k]) {
      RunReading(t, cur, k, k + 1);
      DirectionIsLOrR(w, k);
    }
    assert DirBefore(w, k + 1, R) == if IsNeutral(w[k]) then DirBefore(w, k, R) else Direction(w[k], R);
  }

  lemma RunReading(t: seq<int>, cur: int, c: nat, k: nat)
    requires TypesOk(t) && c <= k <= |t|
    requires forall i :: c <= i < k ==> IsNeutral(t[i])
    ensures var w := RuleW7(t, R, true);
            forall i :: c <= i < k ==>
              MachineReading(t, cur)[i] ==
              cur + (if DirBefore(w, k, R) == L && DirAfter(w, k, R) == L then 1 else 0)
  {
    RunResolved(t, cur, true, c, k);
  }

  lemma EmptyPrefix(tab: Table, t: seq<int>, cur: int)
    requires TypesOk(t) && TableOk(tab)
    ensures RtlInv(t, cur, 0, RunAll(tab, cur, t[..0]))
  {}

  lemma {:induction false} RtlPrefix(tab: Table, t: seq<int>, cur: int, k: nat)
    requires TypesOk(t) && k <= |t| && RtlLike(tab)
    ensures RtlInv(t, cur, k, RunAll(tab, cur, t[..k]))
  {
    assert TableOk(tab);
    hide RtlLike, StepFacts, Step, MachineReading, RtlInv;
    if k == 0 {
      EmptyPrefix(tab, t, cur);
    } else {
      RtlPrefix(tab, t, cur, k - 1);
      assert t[..k][..k - 1] == t[..k - 1];
      var r := RunAll(tab, cur, t[..k - 1]);
      StepByFacts(tab, cur, r, t[k - 1]);
      RtlStep(t, cur, k - 1, r, Step(tab, cur, r, t[k - 1]));
    }
  }

  /** The closing separator settles the last run in the base direction. */
  lemma RtlEnd(t: seq<int>, cur: int, r: Run, r': Run)
    requires TypesOk(t) && RtlInv(t, cur, |t|, r) && StepFacts(cur, r, B, r')
    ensures r'.levels[..|t|] == MachineReading(t, cur)
  {
    hide MachineReading;
    if r.cond >= 0 {
      RunReading(t, cur, r.cond, |t|);
    }
    forall i | 0 <= i < |t| ensures r'.levels[i] == MachineReading(t, cur)[i] {}
  }

  lemma RtlWhole(tab: Table, t: seq<int>, cur: int)
    requires TypesOk(t) && RtlLike(tab)
    ensures MachineLevels(tab, cur, t) == MachineReading(t, cur)
  {
    assert TableOk(tab);
    hide RtlLike, RtlInv, StepFacts, RunAll, Step, MachineReading;
    RtlPrefix(tab, t, cur, |t|);
    assert t[..|t|] == t;
    var r := RunAll(tab, cur, t);
    StepByFacts(tab, cur, r, B);
    RtlEnd(t, cur, r, Step(tab, cur, r, B));
  }

  /** The right-to-left machine computes the rules with AN ending an L context. */
  lemma RtlMachineReading(t: seq<int>, cur: int)
    requires TypesOk(t)
    ensures TableOk(IMP_TAB_RTL)
    ensures MachineLevels(IMP_TAB_RTL, cur, t) == MachineReading(t, cur)
  {
    RtlTableIsLike();
    RtlWhole(IMP_TAB_RTL, t, cur);
  }

  // ------------------------------------------------------------------ where the two readings part

  /** An EN governed by an L that an AN has cut off from it. */
  predicate CutOff(t: seq<int>, a: nat)
    requires a < |t|
  {
    t[a] == EN && StrongBefore(t, a, R, false) == L && StrongBefore(t, a, R, true) != L
  }

  /** A cut-off EN, then at least one neutral, then an L or an EN: positions a and b of the two ends. */
  predicate CutOffAt(t: seq<int>, a: nat, b: nat)
    requires b < |t|
  {
    && a + 1 < b
    && CutOff(t, a)
    && (forall i :: a < i < b ==> IsNeutral(t[i]))
    && (t[b] == L || t[b] == EN)
  }

  predicate HasCutOff(t: seq<int>)
  {
    exists a, b :: 0 <= a < b < |t| && CutOffAt(t, a, b)
  }

  /** Through neutrals the governing strong type does not change. */
  lemma {:induction false} StrongThroughNeutrals(t: seq<int>, a: nat, b: nat, anEnds: bool)
    requires a < b <= |t|
    requires forall i :: a < i < b ==> IsNeutral(t[i])
    ensures StrongBefore(t, b, R, anEnds) == StrongBefore(t, a + 1, R, anEnds)
    decreases b - a
  {
    if a + 1 < b {
      StrongThroughNeutrals(t, a, b - 1, anEnds);
    }
  }

  /** An L under the machine's reading is an L under rule W7. */
  lemma {:induction false} StrictReading(t: seq<int>, i: nat)
    requires i <= |t|
    ensures StrongBefore(t, i, R, true) == L ==> StrongBefore(t, i, R, false) == L
  {
    if i > 0 {
      StrictReading(t, i - 1);
    }
  }

  /** The position of the nearest non-neutral before i, or -1. */
  lemma {:induction false} LastSolid(t: seq<int>, i: nat) returns (a: int)
    requires i <= |t|
    ensures -1 <= a < i
    ensures a >= 0 ==> !IsNeutral(t[a])
    ensures forall j :: a < j < i ==> IsNeutral(t[j])
  {
    if i == 0 {
      a := -1;
    } else if IsNeutral(t[i - 1]) {
      a := LastSolid(t, i - 1);
    } else {
      a := i - 1;
    }
  }

  lemma {:induction false} NextSolid(t: seq<int>, i: nat) returns (b: int)
    requires i <= |t|
    ensures i <= b <= |t|
    ensures b < |t| ==> !IsNeutral(t[b])
    ensures forall j :: i <= j < b ==> IsNeutral(t[j])
    decreases |t| - i
  {
    if i == |t| || !IsNeutral(t[i]) {
      b := i;
    } else {
      b := NextSolid(t, i + 1);
    }
  }

  /** The two neighbours of the stretch a+1..b-1 of neutrals, in either reading. */
  lemma Neighbours(t: seq<int>, anEnds: bool, a: int, b: nat)
    requires -1 <= a < b <= |t|
    requires forall j :: a < j < b ==> IsNeutral(t[j])
    requires a >= 0 ==> !IsNeutral(t[a])
    requires b < |t| ==> !IsNeutral(t[b])
    ensures var w := RuleW7(t, R, anEnds);
            && DirBefore(w, b, R) == (if a < 0 then R else Direction(w[a], R))
            && DirAfter(w, b, R) == (if b == |t| then R else Direction(w[b], R))
  {
    var w := RuleW7(t, R, anEnds);
    SameNeighbours(w, a + 1, b, R);
    assert DirBefore(w, a + 1, R) == if a < 0 then R else Direction(w[a], R);
  }

  /** At a neutral the readings differ exactly when the stretch around it lies behind a cut-off EN and before
      an L or an EN. */
  lemma NeutralDiffers(t: seq<int>, cur: int, a: int, i: nat, b: nat)
    requires TypesOk(t)
    requires -1 <= a < i < b <= |t|
    requires forall j :: a < j < b ==> IsNeutral(t[j])
    requires a >= 0 ==> !IsNeutral(t[a])
    requires b < |t| ==> !IsNeutral(t[b])
    ensures MachineReading(t, cur)[i] != Uax9Levels(t, R, cur)[i] <==> a >= 0 && b < |t| && CutOffAt(t, a, b)
  {
    RunResolved(t, cur, true, a + 1, b);
    RunResolved(t, cur, false, a + 1, b);
    Neighbours(t, true, a, b);
    Neighbours(t, false, a, b);
    if a >= 0 {
      StrongThroughNeutrals(t, a, b, true);
      StrongThroughNeutrals(t, a, b, false);
      StrictReading(t, a);
    }
    StrictReading(t, b);
  }

  lemma SolidAgrees(t: seq<int>, cur: int, i: nat)
    requires TypesOk(t) && i < |t| && !IsNeutral(t[i])
    ensures MachineReading(t, cur)[i] == Uax9Levels(t, R, cur)[i]
  {}

  /** The right-to-left machine gives the levels of UAX #9 if and only if the text has no cut-off number. */
  lemma RtlMachineIsUax9Iff(t: seq<int>, cur: int)
    requires TypesOk(t)
    ensures TableOk(IMP_TAB_RTL)
    ensures MachineLevels(IMP_TAB_RTL, cur, t) == Uax9Levels(t, R, cur) <==> !HasCutOff(t)
  {
    RtlMachineReading(t, cur);
    if HasCutOff(t) {
      var a, b :| 0 <= a < b < |t| && CutOffAt(t, a, b);
      NeutralDiffers(t, cur, a, a + 1, b);
    } else {
      forall i | 0 <= i < |t| ensures MachineReading(t, cur)[i] == Uax9Levels(t, R, cur)[i] {
        if IsNeutral(t[i]) {
          var a := LastSolid(t, i);
          var b := NextSolid(t, i);
          NeutralDiffers(t, cur, a, i, b);
        } else {
          SolidAgrees(t, cur, i);
        }
      }
    }
  }

  /** The shortest text on which the right-to-left machine departs from rule W7. */
  lemma CutOffExample()
    ensures TableOk(IMP_TAB_RTL)
    ensures MachineLevels(IMP_TAB_RTL, 1, [L, AN, EN, N, L]) == [2, 2, 2, 1, 2]
    ensures Uax9Levels([L, AN, EN, N, L], R, 1) == [2, 2, 2, 2, 2]
  {
    var t := [L, AN, EN, N, L];
    RtlMachineReading(t, 1);
    hide MachineLevels, TableOk;
    assert StrongBefore(t, 1, R, true) == L && StrongBefore(t, 1, R, false) == L;
    assert StrongBefore(t, 2, R, true) == R && StrongBefore(t, 2, R, false) == L;
    ExampleLevels(t, false);
    ExampleLevels(t, true);
  }

  lemma ExampleLevels(t: seq<int>, anEnds: bool)
    requires t == [L, AN, EN, N, L] && StrongBefore(t, 2, R, anEnds) == if anEnds then R else L
    ensures Levels(t, R, 1, anEnds) == [2, 2, 2, if anEnds then 1 else 2, 2]
  {
    var w := RuleW7(t, R, anEnds);
    assert w == [L, AN, if anEnds then EN else L, N, L];
    assert DirBefore(w, 3, R) == if anEnds then R else L;
    assert DirAfter(w, 3, R) == DirAfter(w, 4, R) == L;
    assert RuleN(w, R) == [L, AN, if anEnds then EN else L, if anEnds then R else L, L];
  }
}
