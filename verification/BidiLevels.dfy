/** The level machine as a function of the whole type sequence, and the declarative rules of UAX #9
    (sections 3.3.4 to 3.3.6) it is compared with. */
module BidiLevels {
  import opened BidiTables

  predicate TypesOk(t: seq<int>) { forall i :: 0 <= i < |t| ==> 0 <= t[i] < 8 }

  predicate IsNeutral(x: int) { x == W || x == N }

  // ------------------------------------------------------------------ UAX #9

  /** The strong type that governs position i: the nearest L or R before it in its segment, else the base
      direction. With anEnds, an AN ends the reach of an L. */
  function StrongBefore(t: seq<int>, i: nat, base: int, anEnds: bool): int
    requires i <= |t|
  {
    if i == 0 then base
    else if t[i - 1] == L || t[i - 1] == R then t[i - 1]
    else if t[i - 1] == B || t[i - 1] == S then base
    else if anEnds && t[i - 1] == AN then R
    else StrongBefore(t, i - 1, base, anEnds)
  }

  /** Rule W7: a European number governed by L becomes L. */
  function RuleW7(t: seq<int>, base: int, anEnds: bool): (w: seq<int>)
    ensures |w| == |t|
  {
    seq(|t|, i requires 0 <= i < |t| =>
      if t[i] == EN && StrongBefore(t, i, base, anEnds) == L then L else t[i])
  }

  /** The direction a non-neutral type shows to neighbouring neutrals; numbers count as R. */
  function Direction(x: int, base: int): int
  {
    if x == L then L else if x == B || x == S then base else R
  }

  function DirBefore(w: seq<int>, i: nat, base: int): int
    requires i <= |w|
  {
    if i == 0 then base
    else if IsNeutral(w[i - 1]) then DirBefore(w, i - 1, base)
    else Direction(w[i - 1], base)
  }

  function DirAfter(w: seq<int>, i: nat, base: int): int
    requires i <= |w|
    decreases |w| - i
  {
    if i == |w| then base
    else if IsNeutral(w[i]) then DirAfter(w, i + 1, base)
    else Direction(w[i], base)
  }

  /** Rules N1 and N2: neutrals take the direction of both neighbours when these agree, else the base. */
  function RuleN(w: seq<int>, base: int): (r: seq<int>)
    ensures |r| == |w|
  {
    seq(|w|, i requires 0 <= i < |w| =>
      if !IsNeutral(w[i]) then w[i]
      else if DirBefore(w, i, base) == DirAfter(w, i, base) then DirBefore(w, i, base)
      else base)
  }

  /** Rules I1 and I2: the level of a resolved type over the embedding level cur; B is at level 0. */
  function LevelOf(x: int, base: int, cur: int): int
  {
    if x == B then 0
    else if x == S then cur
    else if base == L then cur + (if x == L then 0 else if x == R then 1 else 2)
    else cur + (if x == R then 0 else 1)
  }

  function Levels(t: seq<int>, base: int, cur: int, anEnds: bool): (l: seq<int>)
    ensures |l| == |t|
  {
    var r := RuleN(RuleW7(t, base, anEnds), base);
    seq(|t|, i requires 0 <= i < |t| => LevelOf(r[i], base, cur))
  }

  /** The levels UAX #9 gives to the final types t. */
  function Uax9Levels(t: seq<int>, base: int, cur: int): (l: seq<int>)
    ensures |l| == |t|
  {
    Levels(t, base, cur, false)
  }

  // ------------------------------------------------------------------ the machine

  datatype Run = Run(sta: int, cond: int, levels: seq<int>)

  /** The conditional run is open exactly in the conditional states. */
  predicate RunOk(tab: Table, r: Run)
    requires TableOk(tab)
  {
    && 0 <= r.sta < |tab|
    && -1 <= r.cond < |r.levels|
    && (r.cond >= 0 <==> tab[r.sta][ITCOND] == 1)
  }

  /** The levels with everything from position c on set to v. */
  function SetFrom(levels: seq<int>, c: int, v: int): (r: seq<int>)
    requires 0 <= c <= |levels|
    ensures |r| == |levels|
  {
    levels[..c] + seq(|levels| - c, _ => v)
  }

  /** The two run actions: 1 rewrites the open run to the level over cur, and both close it. */
  function ActOn(cur: int, r: Run, special: int): (r': Run)
    requires special == 1 ==> 0 <= r.cond <= |r.levels|
    ensures |r'.levels| == |r.levels|
  {
    Run(r.sta,
        if special == 1 || special == 2 then -1 else r.cond,
        if special == 1 then SetFrom(r.levels, r.cond, cur + 1) else r.levels)
  }

  /** Entering row sta closes an open run at the new level unless the row is conditional. */
  function SettleOn(tab: Table, cur: int, r: Run, sta: int, x: int): (r': Run)
    requires TableOk(tab) && 0 <= sta < |tab| && -1 <= r.cond <= |r.levels|
    ensures |r'.levels| == |r.levels| + 1
  {
    var level := cur + tab[sta][ITIL];
    var levels := if tab[sta][ITCOND] == 0 && r.cond >= 0 then SetFrom(r.levels, r.cond, level) else r.levels;
    var cond := if tab[sta][ITCOND] == 0 then -1 else if r.cond == -1 then |r.levels| else r.cond;
    Run(sta, cond, levels + [if x == B then 0 else level])
  }

  /** One character of type x through a plain table. */
  function Step(tab: Table, cur: int, r: Run, x: int): (r': Run)
    requires TableOk(tab) && RunOk(tab, r) && 0 <= x < 8
    ensures RunOk(tab, r') && |r'.levels| == |r.levels| + 1
  {
    var e := tab[r.sta][x];
    assert EntryOk(tab, tab[r.sta][ITCOND], x, e);
    SettleOn(tab, cur, ActOn(cur, r, e / 16), e % 16, x)
  }

  function RunAll(tab: Table, cur: int, t: seq<int>): (r: Run)
    requires TableOk(tab) && TypesOk(t)
    ensures RunOk(tab, r) && |r.levels| == |t|
  {
    if t == [] then Run(0, -1, []) else Step(tab, cur, RunAll(tab, cur, t[..|t| - 1]), t[|t| - 1])
  }

  /** The machine over the whole text, with the block separator that the caller feeds at the end. */
  function MachineLevels(tab: Table, cur: int, t: seq<int>): (l: seq<int>)
    requires TableOk(tab) && TypesOk(t)
    ensures |l| == |t|
  {
    Step(tab, cur, RunAll(tab, cur, t), B).levels[..|t|]
  }
}
