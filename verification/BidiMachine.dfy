/** The working object of the reordering engine: level machine, run reversal and type assignment, updating
    their arrays in place. */
module BidiMachine {
  import opened Wrappers
  import opened BidiTables
  import opened BidiLevels
  import opened BidiReorder
  import opened BidiTypes
  import BidiPasses

  const LRM := BidiPasses.LRM
  const RLM := BidiPasses.RLM

  /** An LRM or RLM insertion point. */
  datatype Point = Point(pos: int, after: bool, mark: int)

  /** A neutral (or a neutral marked for swapping) changes its mark when flip holds. */
  function Toggle(o: int, flip: bool): int { if flip && Abs(o) == N then -o else o }

  /** Toggling again when the parity changes amounts to toggling for the new parity. */
  lemma ToggleTwice(o: int, symmetric: bool, old': int, new': int)
    requires 0 <= old' && 0 <= new'
    ensures Toggle(Toggle(o, symmetric && old' % 2 == 1), symmetric && old' % 2 != new' % 2) ==
            Toggle(o, symmetric && new' % 2 == 1)
  {}

  class BidiOrder {
    const icsSize: nat
    const winCompatible: bool
    const origType: array<int>
    const finalType: array<int>
    const propertyMap: array<int>
    const dstToSrcMap: array<int>

    var impTab: Table
    var ucbIx: int
    var ucbBasLev: int
    var ucbOutLev: int
    var ucbCurLev: int
    var ucbImpSta: int
    var ucbCondPos: int
    var ucbXType: int
    var ucbWTarget: int
    var icsSymmetric: bool
    var impToImpPhase: int
    var startL2EN: int
    var lastStrongRTL: int
    var insertCnt: nat
    var insertPoints: seq<Point>

    // The position whose type and mark belong to index i: i itself, or the map of the first phase.
    ghost var pos: seq<int>
    // The raw classes (with the marks of the first phase) when the current phase began.
    ghost var entry: seq<int>

    ghost predicate Shape()
      reads this`pos, this`entry
    {
      && origType.Length == finalType.Length == propertyMap.Length == dstToSrcMap.Length == icsSize
      && origType != finalType && origType != propertyMap && origType != dstToSrcMap
      && finalType != propertyMap && finalType != dstToSrcMap && propertyMap != dstToSrcMap
      && IsPermutation(pos, icsSize) && |entry| == icsSize
    }

    /** In the first phase index and position coincide; in the second the map translates. */
    ghost predicate Positioned()
      requires Shape()
      reads this`pos, this`entry, this`impToImpPhase, dstToSrcMap
    {
      && (impToImpPhase == 2 ==> pos == dstToSrcMap[..])
      && (impToImpPhase != 2 ==> forall i :: 0 <= i < icsSize ==> pos[i] == i && entry[i] >= 0)
    }

    /** What a phase sets up and the level machine leaves alone. */
    ghost predicate Setting()
      reads this`pos, this`entry, this`impToImpPhase, this`impTab, this`ucbIx, this`ucbCurLev,
            finalType, dstToSrcMap
    {
      && Shape() && Positioned()
      && TableOk(impTab)
      && 0 <= ucbIx <= icsSize
      && 0 <= ucbCurLev <= 2
      && (InsertsInLtr(impTab) ==> ucbCurLev % 2 == 0 && impToImpPhase != 2)
      && (forall i :: 0 <= i < icsSize ==> 0 <= finalType[i] < 8)
    }

    /** The machine's own state is consistent: a valid row, a conditional run open exactly in conditional
        states, confirmed insertions never more than the points recorded. */
    ghost predicate Valid()
      reads this, finalType, dstToSrcMap
    {
      && Setting()
      && 0 <= ucbImpSta < |impTab|
      && -1 <= ucbCondPos <= ucbIx
      && (ucbCondPos >= 0 <==> impTab[ucbImpSta][ITCOND] == 1)
      && insertCnt <= |insertPoints|
      && -1 <= lastStrongRTL && -2 <= startL2EN
    }

    /** Ready for the character at ucbIx: everything before it has a level, and is marked for mirroring (over
        its mark on entry) exactly when the text is symmetric and its level is odd. */
    ghost predicate Ready()
      reads this, origType, finalType, propertyMap, dstToSrcMap
    {
      && Valid()
      && ucbCondPos < ucbIx
      && (forall i :: 0 <= i < ucbIx ==> 0 <= propertyMap[i] <= 4)
      && Marked()
    }

    ghost predicate Marked()
      requires Shape() && 0 <= ucbIx <= icsSize
      reads this`pos, this`entry, this`ucbIx, this`icsSymmetric, origType, propertyMap
    {
      forall i :: 0 <= i < icsSize ==> origType[pos[i]] == MarkOf(i)
    }

    ghost function MarkOf(i: int): int
      requires Shape() && 0 <= i < icsSize
      reads this`pos, this`entry, this`ucbIx, this`icsSymmetric, propertyMap
    {
      if i < ucbIx then Toggle(entry[pos[i]], icsSymmetric && propertyMap[i] % 2 == 1) else entry[pos[i]]
    }

    ghost function CurrentRun(): Run
      requires Shape() && 0 <= ucbIx <= icsSize
      reads this, propertyMap
    {
      Run(ucbImpSta, ucbCondPos, propertyMap[..ucbIx])
    }

    /** Toggles the mark of index i when its level changes parity. */
    method SymmetricSwap(i: int, oldLevel: int, level: int)
      requires Shape() && Positioned() && 0 <= i < icsSize && 0 <= oldLevel && 0 <= level
      modifies origType
      ensures origType[pos[i]] ==
              Toggle(old(origType[pos[i]]), icsSymmetric && oldLevel % 2 != level % 2)
      ensures forall p :: 0 <= p < icsSize && p != pos[i] ==> origType[p] == old(origType[p])
    {
      if icsSymmetric && oldLevel % 2 != level % 2 {
        var p := if impToImpPhase == 2 then dstToSrcMap[i] else i;
        if origType[p] == N {
          origType[p] := N_SWAP;
        } else if origType[p] == N_SWAP {
          origType[p] := N;
        }
      }
    }

    /** Sets the conditional run to one level. */
    method SetRun(level: int)
      requires Shape() && Positioned() && 0 <= ucbIx <= icsSize && Marked()
      requires forall i :: 0 <= i < ucbIx ==> 0 <= propertyMap[i] <= 4
      requires 0 <= ucbCondPos < ucbIx && 0 <= level <= 4
      modifies origType, propertyMap
      ensures Marked()
      ensures forall i :: 0 <= i < ucbIx ==> 0 <= propertyMap[i] <= 4
      ensures propertyMap[..ucbIx] == SetFrom(old(propertyMap[..ucbIx]), ucbCondPos, level)
      ensures propertyMap[ucbIx..] == old(propertyMap[ucbIx..])
    {
      hide Toggle, Positioned;
      ghost var before := propertyMap[..];
      var i := ucbCondPos;
      while i < ucbIx
        invariant ucbCondPos <= i <= ucbIx
        invariant Shape() && Positioned() && Marked()
        invariant forall j :: ucbCondPos <= j < i ==> propertyMap[j] == level
        invariant forall j :: 0 <= j < icsSize && !(ucbCondPos <= j < i) ==> propertyMap[j] == before[j]
      {
        var oldLevel := propertyMap[i];
        ToggleTwice(entry[pos[i]], icsSymmetric, oldLevel, level);
        propertyMap[i] := level;
        SymmetricSwap(i, oldLevel, level);
        i := i + 1;
      }
    }

    method AddPoint(p: int, after: bool, mark: int)
      modifies `insertPoints
      ensures insertPoints == old(insertPoints) + [Point(p, after, mark)]
    {
      insertPoints := insertPoints + [Point(p, after, mark)];
    }

    method AfterAN(from: int) returns (i: int)
      requires Shape() && 0 <= from <= icsSize
      ensures from <= i <= icsSize
      ensures forall j :: from <= j < i ==> finalType[j] == AN
      ensures i < icsSize ==> finalType[i] != AN
    {
      i := from;
      while i < icsSize && finalType[i] == AN
        invariant from <= i <= icsSize
        invariant forall j :: from <= j < i ==> finalType[j] == AN
      {
        i := i + 1;
      }
    }

    method AfterENAN(from: int) returns (i: int)
      requires Shape() && 0 <= from <= icsSize
      ensures from <= i <= icsSize
      ensures forall j :: from <= j < i ==> finalType[j] == EN || finalType[j] == AN
      ensures i < icsSize ==> finalType[i] != EN && finalType[i] != AN
    {
      i := from;
      while i < icsSize && (finalType[i] == EN || finalType[i] == AN)
        invariant from <= i <= icsSize
        invariant forall j :: from <= j < i ==> finalType[j] == EN || finalType[j] == AN
      {
        i := i + 1;
      }
    }

    method BeforeENAN(from: int) returns (i: int)
      requires Shape() && -1 <= from < icsSize
      ensures -1 <= i <= from
      ensures forall j :: i < j <= from ==> finalType[j] == EN || finalType[j] == AN
      ensures i >= 0 ==> finalType[i] != EN && finalType[i] != AN
    {
      i := from;
      while i >= 0 && (finalType[i] == EN || finalType[i] == AN)
        invariant -1 <= i <= from
        invariant forall j :: i < j <= from ==> finalType[j] == EN || finalType[j] == AN
      {
        i := i - 1;
      }
    }

    /** Puts the positions from..ucbIx-1 at one even level, unmarked. */
    method ResetSince(from: int, level: int)
      requires Ready() && impToImpPhase != 2 && 0 <= from && 0 <= level <= 4 && level % 2 == 0
      modifies origType, propertyMap
      ensures Marked()
      ensures forall i :: 0 <= i < icsSize ==>
                propertyMap[i] == if from <= i < ucbIx then level else old(propertyMap[i])
    {
      var i := from;
      while i < ucbIx
        invariant from <= i
        invariant Marked()
        invariant forall j :: 0 <= j < icsSize ==>
                    propertyMap[j] == if from <= j < i && j < ucbIx then level else old(propertyMap[j])
      {
        assert pos[i] == i;
        propertyMap[i] := level;
        origType[i] := Abs(origType[i]);
        i := i + 1;
      }
    }

    /** Action 3: an L after R and digits confirms the points recorded, and then the text since the last R
        goes back to the base level. */
    method ConfirmAfterRtl(newLevel: int)
      requires Ready() && impToImpPhase != 2 && 0 <= newLevel <= 4 && newLevel % 2 == 0
      modifies this`startL2EN, this`lastStrongRTL, this`insertCnt, this`insertPoints, origType, propertyMap
      ensures Marked()
      ensures startL2EN == -1 && lastStrongRTL == -1
      ensures insertPoints ==
              if old(startL2EN) >= 0 then old(insertPoints) + [Point(old(startL2EN), false, LRM)]
              else old(insertPoints)
      ensures insertCnt == |insertPoints|
      ensures forall i :: 0 <= i < icsSize ==>
                propertyMap[i] == if insertCnt > old(insertCnt) && old(lastStrongRTL) < i < ucbIx then newLevel
                                  else old(propertyMap[i])
    {
      ghost var confirmed := insertCnt;
      var from := lastStrongRTL + 1;
      if startL2EN >= 0 {
        AddPoint(startL2EN, false, LRM);
      }
      startL2EN := -1;
      lastStrongRTL := -1;
      if |insertPoints| > insertCnt {
        ResetSince(from, newLevel);
        insertCnt := |insertPoints|;
      }
    }

    /** Actions 4 to 10, which record, confirm or drop insertion points. */
    method PointAction(special: int)
      requires Shape() && 4 <= special <= 10 && 0 <= ucbIx <= icsSize
      requires special == 5 || special == 8 ==> ucbIx < icsSize
      requires insertCnt <= |insertPoints| && -1 <= lastStrongRTL && -2 <= startL2EN
      modifies this`startL2EN, this`lastStrongRTL, this`insertCnt, this`insertPoints, this`ucbCondPos
      ensures ucbCondPos == if special == 5 || special == 9 then -1 else old(ucbCondPos)
      ensures insertCnt <= |insertPoints| && -1 <= lastStrongRTL && -2 <= startL2EN
    {
      match special {
        case 4 =>
          insertPoints := insertPoints[..insertCnt];
          startL2EN := -1;
          lastStrongRTL := ucbIx;
        case 5 =>
          ucbCondPos := -1;
          if ucbXType == AN && origType[ucbIx] == AN && !winCompatible {
            if startL2EN == -1 {
              var i := AfterAN(ucbIx);
              lastStrongRTL := i - 1;
              return;
            }
            if startL2EN >= 0 {
              AddPoint(startL2EN, false, LRM);
              startL2EN := -2;
            }
            AddPoint(ucbIx, false, LRM);
            return;
          }
          if startL2EN == -1 {
            startL2EN := ucbIx;
          }
        case 6 =>
          lastStrongRTL := ucbIx;
        case 7 =>
          var i := BeforeENAN(ucbIx - 1);
          if i < 0 {
            return;
          }
          AddPoint(i, false, RLM);
          insertCnt := |insertPoints|;
        case 8 =>
          var p := AfterENAN(ucbIx);
          var i := BeforeENAN(ucbIx);
          if (p >= icsSize || finalType[p] == L || finalType[p] == R) && i >= 0 && finalType[i] == L {
            return;
          }
          AddPoint(p - 1, true, LRM);
          AddPoint(i + 1, false, LRM);
        case 9 =>
          insertPoints := insertPoints[..insertCnt];
          ucbCondPos := -1;
        case 10 =>
          insertCnt := |insertPoints|;
      }
    }

    /** Carries out the action of a table entry; run actions (1 and 2) close the conditional run. */
    method Act(special: int, newLevel: int)
      requires Ready() && 0 <= special <= 10 && 0 <= newLevel <= 4
      requires special == 1 ==> ucbCondPos >= 0
      requires special == 3 ==> impToImpPhase != 2 && newLevel % 2 == 0
      requires special == 5 || special == 8 ==> ucbIx < icsSize
      modifies this`startL2EN, this`lastStrongRTL, this`insertCnt, this`insertPoints, this`ucbCondPos,
               origType, propertyMap
      ensures ucbCondPos == if special in {1, 2, 5, 9} then -1 else old(ucbCondPos)
      ensures Shape() && Positioned() && Marked()
      ensures insertCnt <= |insertPoints| && -1 <= lastStrongRTL && -2 <= startL2EN
      ensures forall i :: 0 <= i < ucbIx ==> 0 <= propertyMap[i] <= 4
      ensures special <= 2 ==> CurrentRun() == ActOn(ucbCurLev, old(CurrentRun()), special)
    {
      if special == 1 {
        SetRun(ucbCurLev + 1);
        ucbCondPos := -1;
      } else if special == 2 {
        ucbCondPos := -1;
      } else if special == 3 {
        ConfirmAfterRtl(newLevel);
      } else if special > 3 {
        PointAction(special);
      }
    }

    /** Closes the conditional run at newLevel when the next state is not conditional, else keeps or opens
        one. */
    method Settle(newIS: int, newLevel: int)
      requires Shape() && Positioned() && TableOk(impTab)
      requires 0 <= ucbIx <= icsSize && -1 <= ucbCondPos < ucbIx && Marked()
      requires forall i :: 0 <= i < ucbIx ==> 0 <= propertyMap[i] <= 4
      requires 0 <= newIS < |impTab| && newLevel == ucbCurLev + impTab[newIS][ITIL] && 0 <= newLevel <= 4
      modifies this`ucbCondPos, this`ucbImpSta, this`ucbWTarget, origType, propertyMap
      ensures Marked()
      ensures forall i :: 0 <= i < ucbIx ==> 0 <= propertyMap[i] <= 4
      ensures ucbImpSta == newIS
      ensures ucbWTarget == if ucbXType == B then 0 else newLevel
      ensures ucbCondPos == if impTab[newIS][ITCOND] == 0 then -1
                            else if old(ucbCondPos) == -1 then ucbIx else old(ucbCondPos)
      ensures Run(ucbImpSta, ucbCondPos, propertyMap[..ucbIx] + [ucbWTarget]) ==
              SettleOn(impTab, ucbCurLev, old(CurrentRun()), newIS, ucbXType)
    {
      if impTab[newIS][ITCOND] == 0 {
        if ucbCondPos > -1 {
          SetRun(newLevel);
          ucbCondPos := -1;
        }
      } else if ucbCondPos == -1 {
        ucbCondPos := ucbIx;
      }
      ucbImpSta := newIS;
      ucbWTarget := if ucbXType == B then 0 else newLevel;
    }

    /** Computes the implicit level of the current character and settles what it decides about the run
        before it. For the tables without marker insertion the effect is one Step of the machine. */
    method ImplicitProcessing()
      requires Ready() && 0 <= ucbXType < 8
      requires ucbIx == icsSize ==> ucbXType == B
      modifies this`startL2EN, this`lastStrongRTL, this`insertCnt, this`insertPoints, this`ucbCondPos,
               this`ucbImpSta, this`ucbWTarget, origType, propertyMap
      ensures Valid() && Marked()
      ensures 0 <= ucbWTarget <= 4
      ensures forall i :: 0 <= i < ucbIx ==> 0 <= propertyMap[i] <= 4
      ensures Plain(impTab) ==>
                Run(ucbImpSta, ucbCondPos, propertyMap[..ucbIx] + [ucbWTarget]) ==
                Step(impTab, ucbCurLev, old(CurrentRun()), ucbXType)
    {
      hide Marked, Injective, SetFrom, Positioned;
      var e := impTab[ucbImpSta][ucbXType];
      assert EntryOk(impTab, impTab[ucbImpSta][ITCOND], ucbXType, e);
      var special, newIS := e / 16, e % 16;
      assert RowOk(impTab, impTab[newIS]);
      var newLevel := ucbCurLev + impTab[newIS][ITIL];
      assert special == 3 ==> InsertsInLtr(impTab);
      assert Plain(impTab) ==> RowActions(impTab[ucbImpSta], 2);
      Act(special, newLevel);
      Settle(newIS, newLevel);
    }

    /** The final types in the order the machine reads them. */
    ghost function Types(): (t: seq<int>)
      requires Shape()
      reads this`pos, this`entry, finalType
      ensures |t| == icsSize
    {
      Permuted(finalType[..], pos)
    }

    /** Gives the level just computed to the character at ucbIx, marks it, and moves on. */
    method Store()
      requires Valid() && Marked() && ucbIx < icsSize && 0 <= ucbWTarget <= 4
      requires forall i :: 0 <= i < ucbIx ==> 0 <= propertyMap[i] <= 4
      modifies this`ucbIx, origType, propertyMap
      ensures Ready() && ucbIx == old(ucbIx) + 1
      ensures propertyMap[..ucbIx] == old(propertyMap[..ucbIx] + [ucbWTarget])
    {
      propertyMap[ucbIx] := ucbWTarget;
      var p := if impToImpPhase == 2 then dstToSrcMap[ucbIx] else ucbIx;
      assert p == pos[ucbIx];
      if Abs(origType[p]) == N && icsSymmetric && ucbWTarget % 2 == 1 {
        origType[p] := -origType[p];
      }
      ucbIx := ucbIx + 1;
    }

    /** Takes the character at ucbIx through the machine. */
    method Advance()
      requires Ready() && ucbIx < icsSize
      modifies this`startL2EN, this`lastStrongRTL, this`insertCnt, this`insertPoints, this`ucbCondPos,
               this`ucbImpSta, this`ucbWTarget, this`ucbIx, this`ucbXType, origType, propertyMap
      ensures Ready() && ucbIx == old(ucbIx) + 1
      ensures ucbXType == finalType[pos[ucbIx - 1]] && 0 <= ucbXType < 8
      ensures Plain(impTab) ==> CurrentRun() == Step(impTab, ucbCurLev, old(CurrentRun()), ucbXType)
    {
      hide Step, Marked, Plain, InsertsInLtr, Injective;
      var p := if impToImpPhase == 2 then dstToSrcMap[ucbIx] else ucbIx;
      assert p == pos[ucbIx];
      ucbXType := finalType[p];
      ImplicitProcessing();
      Store();
    }

    /** Runs the machine over the whole text, then feeds it the closing block separator. */
    method ResolveLevels()
      requires Valid() && Marked()
      requires ucbIx == 0 && ucbImpSta == 0 && ucbCondPos == -1
      modifies this`startL2EN, this`lastStrongRTL, this`insertCnt, this`insertPoints, this`ucbCondPos,
               this`ucbImpSta, this`ucbWTarget, this`ucbIx, this`ucbXType, origType, propertyMap
      ensures Valid() && Marked() && ucbIx == icsSize
      ensures forall i :: 0 <= i < icsSize ==> 0 <= propertyMap[i] <= 4
      ensures TypesOk(Types())
      ensures Plain(impTab) ==> propertyMap[..] == MachineLevels(impTab, ucbCurLev, Types())
    {
      ghost var t := Types();
      assert TypesOk(t);
      hide Step, TableOk, Marked, Positioned, Plain, InsertsInLtr, IsPermutation, Shape, TypesOk;
      while ucbIx < icsSize
        invariant Ready()
        invariant Plain(impTab) ==> CurrentRun() == RunAll(impTab, ucbCurLev, t[..ucbIx])
        decreases icsSize - ucbIx
      {
        Advance();
        assert t[..ucbIx][..ucbIx - 1] == t[..ucbIx - 1] && t[..ucbIx][ucbIx - 1] == ucbXType;
      }
      assert t[..ucbIx] == t;
      ucbXType := B;
      ImplicitProcessing();
      assert propertyMap[..icsSize] == propertyMap[..];
    }

    // ---------------------------------------------------------------- final types

    function At(i: int): (p: int)
      requires Shape() && Positioned() && 0 <= i < icsSize
      reads this`pos, this`entry, this`impToImpPhase, dstToSrcMap
      ensures p == pos[i]
    {
      if impToImpPhase == 2 then dstToSrcMap[i] else i
    }

    /** The raw classes in the order the machine reads them. */
    ghost function Classes(): (k: seq<int>)
      requires Shape()
      reads this`pos, this`entry, origType
      ensures |k| == icsSize
    {
      Permuted(origType[..], pos)
    }

    function ClassAt(i: int): (c: int)
      requires Shape() && Positioned() && 0 <= i < icsSize
      reads this`pos, this`entry, this`impToImpPhase, dstToSrcMap, origType
      ensures c == Classes()[i]
    {
      origType[At(i)]
    }

    function TypeAt(i: int): (c: int)
      requires Shape() && Positioned() && 0 <= i < icsSize
      reads this`pos, this`entry, this`impToImpPhase, dstToSrcMap, finalType
      ensures c == Types()[i]
    {
      finalType[At(i)]
    }

    method SetType(i: int, t: int)
      requires Shape() && Positioned() && 0 <= i < icsSize
      modifies finalType
      ensures Types() == old(Types())[i := t]
    {
      finalType[At(i)] := t;
    }

    /** Terminators right before a European number at i join it. */
    method JoinTerminators(i: int)
      requires Shape() && Positioned() && 0 <= i < icsSize
      modifies finalType
      ensures TerminatorsJoined(Classes(), old(Types()), Types(), i)
    {
      hide IsPermutation, Positioned, Types, Classes, Permuted;
      ghost var k, before := Classes(), Types();
      ghost var now := before;
      var prev := i - 1;
      while prev >= 0 && ClassAt(prev) == ET
        invariant -1 <= prev < i && now == Types() && |now| == |before|
        invariant forall m :: prev < m < i ==> k[m] == ET
        invariant forall j :: 0 <= j < |now| ==> now[j] == if prev < j < i then EN else before[j]
      {
        SetType(prev, EN);
        now := now[prev := EN];
        prev := prev - 1;
      }
    }

    /** A European digit at i joins the separator or the terminators before it to the number. */
    method JoinNumber(i: int, isArabic: bool)
      requires Shape() && Positioned() && 0 <= i < icsSize
      modifies finalType
      ensures NumberJoined(Classes(), old(Types()), Types(), i, isArabic)
    {
      hide IsPermutation, Positioned, Types, Classes, Permuted, NumberJoined, TerminatorsJoined;
      ghost var k, t0 := Classes(), Types();
      var wType := if isArabic then AN else EN;
      var afterEN := i >= 2 && ClassAt(i - 2) == EN;
      var es := afterEN && ClassAt(i - 1) == ES;
      var cs := afterEN && ClassAt(i - 1) == CS;
      ghost var t1 := t0;
      if !isArabic {
        if es {
          SetType(i - 1, EN);
        }
        t1 := Types();
        JoinTerminators(i);
      }
      ghost var t2 := Types();
      if cs {
        SetType(i - 1, wType);
      }
      ghost var t3 := Types();
      SetType(i, wType);
      JoinSteps(k, t0, t1, t2, t3, Types(), i, isArabic, es, cs);
    }

    /** An Arabic digit at i joins a single separator between it and another Arabic number. */
    method JoinArabicNumber(i: int, second: bool)
      requires Shape() && Positioned() && 0 <= i < icsSize
      modifies finalType
      ensures var k, t := Classes(), old(Types());
              Types() == if i >= 2 && k[i - 1] == CS && (if second then k[i - 2] == AN else t[i - 2] == AN)
                         then t[i - 1 := AN][i := AN] else t[i := AN]
    {
      if i >= 2 && ClassAt(i - 1) == CS &&
         (if second then ClassAt(i - 2) == AN else TypeAt(i - 2) == AN) {
        SetType(i - 1, AN);
      }
      SetType(i, AN);
    }

    /** One character's type, with what it settles about the characters before it. */
    method AssignFinal(i: int, cType: int, isArabic: bool, second: bool) returns (arabic: bool)
      requires Shape() && Positioned() && 0 <= i < icsSize
      modifies finalType
      ensures CharacterRead(Classes(), old(Types()), Types(), i, cType, isArabic, second)
      ensures arabic == if cType in {B, L, R} then false else if cType == AL then true else isArabic
    {
      arabic := isArabic;
      if cType == EN {
        JoinNumber(i, isArabic);
      } else if cType == AN {
        JoinArabicNumber(i, second);
      } else {
        var t := N;
        if cType == B || cType == L || cType == R {
          arabic := false;
          t := cType;
        } else if cType == S || cType == W {
          t := cType;
        } else if cType == AL {
          arabic := true;
          t := R;
        } else if cType == ET {
          if i > 0 && TypeAt(i - 1) == EN {
            t := EN;
          }
        } else if cType == NSM && !second {
          if i > 0 {
            t := TypeAt(i - 1);
          }
        }
        SetType(i, t);
      }
    }

    /** A step of the first phase, where the classes after i are not filled in yet. */
    method ReadCharacter(i: int, isArabic: bool, ghost e: seq<int>, ghost k: seq<int>, cType: int)
      returns (arabic: bool)
      requires Shape() && Positioned() && impToImpPhase != 2 && 0 <= i < icsSize == |e| == |k|
      requires forall m :: 0 <= m < |e| ==> e[m] == k[m] || e[m] == B
      requires forall j :: 0 <= j <= i ==> origType[j] == k[j]
      requires cType == e[i] && isArabic == Arabic(e, i) && TypedTo(Types(), e, k, i, false)
      modifies finalType
      ensures arabic == Arabic(e, i + 1) && TypedTo(Types(), e, k, i + 1, false)
    {
      ghost var classes, before := Classes(), Types();
      assert forall j :: 0 <= j <= i ==> classes[j] == k[j];
      hide CharacterRead, TypedTo, Types, Classes, Permuted, Positioned, IsPermutation;
      arabic := AssignFinal(i, cType, isArabic, false);
      SamePrefixRead(classes, k, before, Types(), i, cType, isArabic, false);
      TypedStep(e, k, i, false, before, Types());
    }

    /** The types of the text of the first (or only) phase. */
    method FillTypeArray(buffer: seq<int>, cls: int -> int, d1: int, d2: int, visToVis: bool)
      requires Shape() && Positioned() && impToImpPhase != 2 && |buffer| == icsSize
      requires pos == BidiPasses.Identity(icsSize)
      modifies origType, finalType
      ensures origType[..] == RawClasses(buffer, cls)
      ensures finalType[..] == FirstTypes(buffer, cls, d1, d2, visToVis)
    {
      hide IsPermutation, Types, Permuted, Positioned, TypedTo, RawClasses, EffectiveClasses;
      ghost var k := RawClasses(buffer, cls);
      ghost var e := EffectiveClasses(buffer, k, d1, d2);
      var isArabic := false;
      var delimState := 0;
      var i := 0;
      NothingTyped(Types(), e, k);
      while i < icsSize
        invariant 0 <= i <= icsSize
        invariant forall j :: 0 <= j < i ==> origType[j] == k[j]
        invariant d1 != NO_DELIM ==> delimState == DelimState(buffer, i, d1, d2)
        invariant visToVis ==> forall j :: 0 <= j < i ==> finalType[j] == N
        invariant !visToVis ==> isArabic == Arabic(e, i) && TypedTo(Types(), e, k, i, false)
      {
        var cType := cls(buffer[i]);
        origType[i] := cType;
        if d1 != NO_DELIM {
          delimState, cType := Delimit(buffer, i, cType, d1, d2, delimState);
        }
        EffectiveAt(buffer, k, i, d1, d2);
        if visToVis {
          finalType[i] := N;
        } else {
          isArabic := ReadCharacter(i, isArabic, e, k, cType);
        }
        i := i + 1;
      }
      InOwnOrder();
      AllTyped(finalType[..], buffer, cls, d1, d2, visToVis);
    }

    /** The types of the second phase, read in the display order of the first. */
    method FillTypeArray2(d1: int)
      requires Shape() && Positioned() && impToImpPhase == 2
      modifies finalType
      ensures Types() == SecondTypes(Classes(), old(Types()), d1)
    {
      hide IsPermutation, Positioned, Types, Classes, Permuted, CharacterRead, FinalTo;
      ghost var k, t1 := Classes(), Types();
      ghost var e := SecondClasses(k, t1, d1);
      var isArabic := false;
      var i := 0;
      while i < icsSize
        invariant 0 <= i <= icsSize
        invariant isArabic == Arabic(e, i) && TypedTo(Types(), e, k, i, true)
        invariant Types()[i..] == t1[i..]
      {
        ghost var before := Types();
        assert before[i] == before[i..][0] == t1[i];
        var cType := ClassAt(i);
        if d1 != NO_DELIM && TypeAt(i) == B {
          cType := B;
        }
        isArabic := AssignFinal(i, cType, isArabic, true);
        TypedStep(e, k, i, true, before, Types());
        LaterUnread(k, before, Types(), t1, i, cType, Arabic(e, i), true);
        i := i + 1;
      }
    }

    // ---------------------------------------------------------------- phases

    constructor (n: nat, winCompatible: bool)
      ensures Shape() && icsSize == n && this.winCompatible == winCompatible
      ensures fresh(origType) && fresh(finalType) && fresh(propertyMap) && fresh(dstToSrcMap)
      ensures insertPoints == [] && startL2EN == 0 && lastStrongRTL == 0
    {
      icsSize, this.winCompatible := n, winCompatible;
      origType, finalType := new int[n], new int[n];
      propertyMap, dstToSrcMap := new int[n], new int[n];
      impTab, ucbIx, ucbBasLev, ucbOutLev, ucbCurLev := [], 0, 0, 0, 0;
      ucbImpSta, ucbCondPos, ucbXType, ucbWTarget := 0, 0, 0, 0;
      icsSymmetric, impToImpPhase, startL2EN, lastStrongRTL := false, 0, 0, 0;
      insertCnt, insertPoints := 0, [];
      pos, entry := BidiPasses.Identity(n), seq(n, _ => 0);
    }

    /** Selects the table and the base levels and restarts the machine. */
    method BaseLvl(rtlIn: bool, rtlOut: bool, roundTrip: bool, insertMarkers: bool)
      requires -1 <= lastStrongRTL && -2 <= startL2EN
      modifies this`ucbBasLev, this`ucbOutLev, this`ucbCurLev, this`impTab, this`insertCnt, this`insertPoints,
               this`startL2EN, this`lastStrongRTL, this`ucbImpSta, this`ucbCondPos
      ensures impTab == ChooseTable(rtlIn, roundTrip, winCompatible, insertMarkers)
      ensures ucbCurLev == CurrentLevel(rtlIn, rtlOut)
      ensures insertCnt == 0 && ucbImpSta == 0 && ucbCondPos == -1
      ensures -1 <= lastStrongRTL && -2 <= startL2EN
    {
      ucbBasLev := if rtlIn then 1 else 0;
      ucbOutLev := if rtlOut then 1 else 0;
      ucbCurLev := ucbBasLev;
      if ucbBasLev == 0 && ucbOutLev == 1 {
        ucbCurLev := 2;
      }
      if roundTrip {
        impTab := if rtlIn then IMP_TAB_RTL_R else IMP_TAB_LTR_R;
      } else {
        if winCompatible {
          if insertMarkers {
            impTab := if rtlIn then IMP_TAB_RTL_M else IMP_TAB_LTR_WM;
          } else {
            impTab := if rtlIn then IMP_TAB_RTL else IMP_TAB_LTR_W;
          }
        } else if insertMarkers {
          impTab := if rtlIn then IMP_TAB_RTL_M else IMP_TAB_LTR_M;
        } else {
          impTab := if rtlIn then IMP_TAB_RTL else IMP_TAB_LTR;
        }
        if insertMarkers {
          startL2EN, lastStrongRTL, insertPoints := -1, -1, [];
        }
      }
      insertCnt, ucbImpSta, ucbCondPos := 0, 0, -1;
    }

    /** The machine has been restarted, on a table that inserts LRMs in left-to-right text only for such text. */
    ghost predicate Restarted()
      reads this`impTab, this`ucbCurLev, this`insertCnt, this`insertPoints, this`ucbImpSta, this`ucbCondPos,
            this`lastStrongRTL, this`startL2EN
    {
      && TableOk(impTab) && 0 <= ucbCurLev <= 2 && (InsertsInLtr(impTab) ==> ucbCurLev % 2 == 0)
      && insertCnt <= |insertPoints| && ucbImpSta == 0 && ucbCondPos == -1
      && -1 <= lastStrongRTL && -2 <= startL2EN
    }

    /** Notes the classes on entry; the machine is then ready for the first character. */
    method Enter()
      requires Shape() && Restarted() && impToImpPhase != 2 && ucbIx == 0
      requires pos == BidiPasses.Identity(icsSize) && NonNegative(origType[..]) && TypesOk(finalType[..])
      modifies this`entry
      ensures Valid() && Marked() && entry == origType[..]
    {
      assert forall i :: 0 <= i < icsSize ==> 0 <= origType[..][i] && 0 <= finalType[..][i] < 8;
      entry := origType[..];
    }

    method Begin(symmetric: bool, phase: int)
      requires Shape() && phase != 2
      modifies this`impToImpPhase, this`icsSymmetric, this`ucbIx, this`pos, this`entry
      ensures Shape() && Positioned() && ucbIx == 0 && icsSymmetric == symmetric && impToImpPhase == phase
      ensures pos == BidiPasses.Identity(icsSize)
    {
      impToImpPhase, icsSymmetric, ucbIx := phase, symmetric, 0;
      pos, entry := BidiPasses.Identity(icsSize), seq(icsSize, _ => 0);
    }

    /** Starts a phase over the text in its own order. */
    method StartFirst(buffer: seq<int>, cls: int -> int, d1: int, d2: int, visToVis: bool,
                      symmetric: bool, phase: int)
      requires Shape() && Restarted() && |buffer| == icsSize && phase != 2
      requires NonNegative(RawClasses(buffer, cls))
      modifies this`impToImpPhase, this`icsSymmetric, this`ucbIx, this`pos, this`entry, origType, finalType
      ensures Valid() && Marked() && ucbIx == 0 && icsSymmetric == symmetric && impToImpPhase == phase
      ensures pos == BidiPasses.Identity(icsSize) && entry == RawClasses(buffer, cls)
      ensures finalType[..] == FirstTypes(buffer, cls, d1, d2, visToVis)
    {
      hide FirstTypes, RawClasses, Restarted, Marked, Valid, NonNegative, TypesOk;
      Begin(symmetric, phase);
      FillTypeArray(buffer, cls, d1, d2, visToVis);
      Enter();
    }

    lemma InOwnOrder()
      requires Shape() && pos == BidiPasses.Identity(icsSize)
      ensures Types() == finalType[..] && Classes() == origType[..]
    {
      OwnOrder(origType[..], pos);
      OwnOrder(finalType[..], pos);
    }

    /** Types, levels and marks of the text in its own order. */
    method FirstLevels(buffer: seq<int>, cls: int -> int, d1: int, d2: int, visToVis: bool,
                       symmetric: bool, phase: int)
      requires Shape() && Restarted() && |buffer| == icsSize && phase != 2
      requires NonNegative(RawClasses(buffer, cls))
      modifies this`impToImpPhase, this`icsSymmetric, this`ucbIx, this`pos, this`entry,
               this`startL2EN, this`lastStrongRTL, this`insertCnt, this`insertPoints, this`ucbCondPos,
               this`ucbImpSta, this`ucbWTarget, this`ucbXType, origType, finalType, propertyMap
      ensures Valid() && ucbIx == icsSize
      ensures finalType[..] == FirstTypes(buffer, cls, d1, d2, visToVis)
      ensures Plain(impTab) ==> propertyMap[..] == MachineLevels(impTab, ucbCurLev, finalType[..])
      ensures origType[..] == Marks(RawClasses(buffer, cls), propertyMap[..], symmetric)
      ensures forall i :: 0 <= i < icsSize ==> 0 <= propertyMap[i] <= 4
    {
      hide FirstTypes, RawClasses, Marked, MachineLevels;
      StartFirst(buffer, cls, d1, d2, visToVis, symmetric, phase);
      InOwnOrder();
      ResolveLevels();
      MarksInOwnOrder();
    }

    /** On whichever of the eight tables is chosen, and over any text, the machine runs to its end: every index is
        in range, every action is known, the conditional run is open exactly in conditional states, no more
        insertions are confirmed than recorded, and every character has a level. */
    method LevelsOnChosenTable(buffer: seq<int>, cls: int -> int, d1: int, d2: int, visToVis: bool, symmetric: bool,
                               rtlIn: bool, rtlOut: bool, roundTrip: bool, insertMarkers: bool)
      requires Shape() && |buffer| == icsSize && -1 <= lastStrongRTL && -2 <= startL2EN
      requires NonNegative(RawClasses(buffer, cls))
      modifies this, origType, finalType, propertyMap
      ensures Valid() && ucbIx == icsSize
      ensures impTab == ChooseTable(rtlIn, roundTrip, winCompatible, insertMarkers)
      ensures ucbCurLev == CurrentLevel(rtlIn, rtlOut)
      ensures finalType[..] == FirstTypes(buffer, cls, d1, d2, visToVis)
      ensures origType[..] == Marks(RawClasses(buffer, cls), propertyMap[..], symmetric)
      ensures forall i :: 0 <= i < icsSize ==> 0 <= propertyMap[i] <= 4
    {
      hide ChooseTable, FirstTypes, RawClasses, Marks, TableOk, NonNegative, Valid, InsertsInLtr, Plain;
      BaseLvl(rtlIn, rtlOut, roundTrip, insertMarkers);
      ChosenTable(rtlIn, roundTrip, winCompatible, insertMarkers);
      FirstLevels(buffer, cls, d1, d2, visToVis, symmetric, 0);
    }

    lemma MarksInOwnOrder()
      requires Shape() && ucbIx == icsSize && Marked() && pos == BidiPasses.Identity(icsSize)
      ensures origType[..] == Marks(entry, propertyMap[..], icsSymmetric)
    {
      forall i | 0 <= i < icsSize ensures origType[i] == Marks(entry, propertyMap[..], icsSymmetric)[i] {
        assert origType[pos[i]] == MarkOf(i);
      }
    }

    /** Starts the second phase over the text in the display order of the first. */
    method StartSecond(d1: int, symmetric: bool)
      requires Shape() && Restarted() && Plain(impTab) && !InsertsInLtr(impTab)
      requires IsPermutation(dstToSrcMap[..], icsSize)
      modifies this`impToImpPhase, this`icsSymmetric, this`ucbIx, this`pos, this`entry, finalType
      ensures Valid() && Marked() && ucbIx == 0 && icsSymmetric == symmetric
      ensures pos == dstToSrcMap[..] && entry == origType[..]
      ensures Types() == SecondTypes(Permuted(origType[..], pos), Permuted(old(finalType[..]), pos), d1)
    {
      impToImpPhase, icsSymmetric, ucbIx := 2, symmetric, 0;
      pos, entry := dstToSrcMap[..], origType[..];
      FillTypeArray2(d1);
      TypesInPlace(finalType[..], pos);
    }

    /** Types, levels and marks of the second phase, in the display order of the first. */
    method SecondLevels(d1: int, symmetric: bool)
      requires Shape() && Restarted() && Plain(impTab) && !InsertsInLtr(impTab)
      requires IsPermutation(dstToSrcMap[..], icsSize)
      modifies this`impToImpPhase, this`icsSymmetric, this`ucbIx, this`pos, this`entry,
               this`startL2EN, this`lastStrongRTL, this`insertCnt, this`insertPoints, this`ucbCondPos,
               this`ucbImpSta, this`ucbWTarget, this`ucbXType, origType, finalType, propertyMap
      ensures Shape() && pos == dstToSrcMap[..]
      ensures Types() == SecondTypes(Permuted(old(origType[..]), pos), Permuted(old(finalType[..]), pos), d1)
      ensures propertyMap[..] == MachineLevels(impTab, ucbCurLev, Types())
      ensures Classes() == Marks(Permuted(old(origType[..]), pos), propertyMap[..], symmetric)
      ensures forall i :: 0 <= i < icsSize ==> 0 <= propertyMap[i] <= 4
    {
      hide SecondTypes, Marked, MachineLevels;
      StartSecond(d1, symmetric);
      ResolveLevels();
      MarksInDisplayOrder();
    }

    lemma MarksInDisplayOrder()
      requires Shape() && ucbIx == icsSize && Marked()
      ensures Classes() == Marks(Permuted(entry, pos), propertyMap[..], icsSymmetric)
    {
      forall i | 0 <= i < icsSize
        ensures Classes()[i] == Marks(Permuted(entry, pos), propertyMap[..], icsSymmetric)[i]
      {
        assert origType[pos[i]] == MarkOf(i);
      }
    }
  }

  function ChooseTable(rtl: bool, roundTrip: bool, winCompatible: bool, insertMarkers: bool): Table
  {
    if roundTrip then (if rtl then IMP_TAB_RTL_R else IMP_TAB_LTR_R)
    else if insertMarkers then
      (if rtl then IMP_TAB_RTL_M else if winCompatible then IMP_TAB_LTR_WM else IMP_TAB_LTR_M)
    else if rtl then IMP_TAB_RTL
    else if winCompatible then IMP_TAB_LTR_W else IMP_TAB_LTR
  }

  /** The embedding level: a left-to-right text shown right to left starts at level 2. */
  function CurrentLevel(rtlIn: bool, rtlOut: bool): int { if rtlIn then 1 else if rtlOut then 2 else 0 }

  /** Without marker insertion the chosen table only deals with the conditional run. */
  lemma ChosenTable(rtl: bool, roundTrip: bool, winCompatible: bool, insertMarkers: bool)
    ensures var tab := ChooseTable(rtl, roundTrip, winCompatible, insertMarkers);
            && TableOk(tab)
            && (!insertMarkers ==> Plain(tab) && !InsertsInLtr(tab))
            && (rtl ==> !InsertsInLtr(tab))
  {
    var tab := ChooseTable(rtl, roundTrip, winCompatible, insertMarkers);
    Ok_LTR(); Ok_RTL(); Ok_LTR_R(); Ok_RTL_R(); Ok_LTR_W(); Ok_LTR_M(); Ok_RTL_M(); Ok_LTR_WM();
    Plain_LTR(); Plain_RTL(); Plain_LTR_R(); Plain_RTL_R(); Plain_LTR_W();
    NoLtrInsertion_RTL_M();
    if Plain(tab) {
      forall s, c | 0 <= s < |tab| && 0 <= c < |tab[s]| && c < 8 ensures tab[s][c] / 16 != 3 {
        assert RowActions(tab[s], 2);
      }
    }
  }

  /** The classes with the neutrals at odd levels marked for mirroring. */
  function Marks(k: seq<int>, levels: seq<int>, symmetric: bool): (m: seq<int>)
    requires |k| == |levels|
    ensures |m| == |k|
  {
    seq(|k|, i requires 0 <= i < |k| => Toggle(k[i], symmetric && levels[i] % 2 == 1))
  }

  lemma OwnOrder(a: seq<int>, q: seq<int>)
    requires InRange(q, |a|) && forall i :: 0 <= i < |a| ==> q[i] == i
    ensures Permuted(a, q) == a
  {}

  /** Types that are in range in display order are in range in place. */
  lemma TypesInPlace(a: seq<int>, q: seq<int>)
    requires IsPermutation(q, |a|) && TypesOk(Permuted(a, q))
    ensures TypesOk(a)
  {
    forall p | 0 <= p < |a| ensures 0 <= a[p] < 8 {
      var x := Surjective(q, |a|, p);
      assert Permuted(a, q)[x] == a[p];
    }
  }

  /** One character through the delimiter states. */
  method Delimit(buffer: seq<int>, i: int, cls: int, d1: int, d2: int, delimState: int)
    returns (state: int, cType: int)
    requires 0 <= i < |buffer| && d1 != NO_DELIM && delimState == DelimState(buffer, i, d1, d2)
    ensures state == DelimState(buffer, i + 1, d1, d2)
    ensures forall k: seq<int> :: |k| == |buffer| && k[i] == cls ==> cType == EffectiveClass(buffer, k, i, d1, d2)
  {
    var c := buffer[i];
    state, cType := delimState, cls;
    if delimState == 0 {
      if c == d1 {
        state := 1;
      }
      cType := B;
    } else if delimState == 1 {
      if c == d2 {
        if i + 1 < |buffer| && buffer[i + 1] == d2 {
          state := 2;
        } else {
          state := 0;
          cType := B;
        }
      }
    } else {
      state := 1;
    }
  }

  function RawClasses(buffer: seq<int>, cls: int -> int): (k: seq<int>)
    ensures |k| == |buffer|
    ensures forall i :: 0 <= i < |buffer| ==> k[i] == cls(buffer[i])
  {
    seq(|buffer|, i requires 0 <= i < |buffer| => cls(buffer[i]))
  }

  lemma EffectiveAt(c: seq<int>, k: seq<int>, i: nat, d1: int, d2: int)
    requires i < |c| == |k|
    ensures EffectiveClasses(c, k, d1, d2)[i] == EffectiveClass(c, k, i, d1, d2)
  {}

  lemma NothingTyped(t: seq<int>, e: seq<int>, k: seq<int>)
    requires |t| == |e| == |k|
    ensures TypedTo(t, e, k, 0, false)
  {}

  lemma AllTyped(t: seq<int>, buffer: seq<int>, cls: int -> int, d1: int, d2: int, visToVis: bool)
    requires |t| == |buffer|
    requires visToVis ==> forall j :: 0 <= j < |t| ==> t[j] == N
    requires var k := RawClasses(buffer, cls);
             !visToVis ==> TypedTo(t, EffectiveClasses(buffer, k, d1, d2), k, |t|, false)
    ensures t == FirstTypes(buffer, cls, d1, d2, visToVis)
  {}

  predicate NonNegative(k: seq<int>) { forall i :: 0 <= i < |k| ==> 0 <= k[i] }

  /** The final types of the first phase; visual text keeps every character neutral. */
  function FirstTypes(buffer: seq<int>, cls: int -> int, d1: int, d2: int, visToVis: bool): (t: seq<int>)
    ensures |t| == |buffer|
    ensures TypesOk(t)
  {
    if visToVis then seq(|buffer|, _ => N)
    else FinalTypes(EffectiveClasses(buffer, RawClasses(buffer, cls), d1, d2), RawClasses(buffer, cls), false)
  }

  /** In the second phase, block separators made by delimiters stay block separators. */
  function SecondClasses(k: seq<int>, t1: seq<int>, d1: int): (e: seq<int>)
    requires |k| == |t1|
    ensures |e| == |k|
  {
    seq(|k|, i requires 0 <= i < |k| => if d1 != NO_DELIM && t1[i] == B then B else k[i])
  }

  function SecondTypes(k: seq<int>, t1: seq<int>, d1: int): (t: seq<int>)
    requires |k| == |t1|
    ensures |t| == |k|
    ensures TypesOk(t)
  {
    FinalTypes(SecondClasses(k, t1, d1), k, true)
  }

  /** Reading a character depends only on the classes up to it. */
  lemma SamePrefixRead(k: seq<int>, k': seq<int>, t: seq<int>, t': seq<int>, i: nat, c: int, isArabic: bool,
                       second: bool)
    requires CharacterRead(k, t, t', i, c, isArabic, second)
    requires |k| == |k'|
    requires forall j :: 0 <= j <= i ==> k[j] == k'[j]
    ensures CharacterRead(k', t, t', i, c, isArabic, second)
  {
    if c == EN {
      forall j | 0 <= j < |t| ensures t'[j] == Joined(k', t, j, i, isArabic) {
        assert (forall m :: j <= m < i ==> k[m] == ET) <==> (forall m :: j <= m < i ==> k'[m] == ET);
      }
    }
  }

  /** Reading a character leaves the characters after it alone. */
  lemma LaterUnread(k: seq<int>, t: seq<int>, t': seq<int>, t1: seq<int>, i: nat, c: int, isArabic: bool,
                    second: bool)
    requires CharacterRead(k, t, t', i, c, isArabic, second)
    requires |t1| == |t| && t[i..] == t1[i..]
    ensures t'[i + 1..] == t1[i + 1..]
  {
    forall j | i < j < |t| ensures t'[j] == t1[j] {
      assert t[j] == t[i..][j - i] == t1[i..][j - i];
    }
  }

  /** Exactly the raw terminators right before i have become EN. */
  ghost predicate TerminatorsJoined(k: seq<int>, t: seq<int>, t': seq<int>, i: nat)
  {
    && |k| == |t| == |t'| && i < |t|
    && forall j :: 0 <= j < |t| ==>
         t'[j] == if j < i && (forall m :: j <= m < i ==> k[m] == ET) then EN else t[j]
  }

  /** The type of j after a European digit at i joins the separator or terminators before it. */
  function Joined(k: seq<int>, t: seq<int>, j: int, i: int, isArabic: bool): int
    requires 0 <= j < |t| == |k| && 0 <= i < |t|
  {
    var wType := if isArabic then AN else EN;
    if j == i then wType
    else if !isArabic && j < i && (forall m :: j <= m < i ==> k[m] == ET) then EN
    else if !isArabic && j == i - 1 && 0 < j && k[j] == ES && k[j - 1] == EN then EN
    else if j == i - 1 && 0 < j && k[j] == CS && k[j - 1] == EN then wType
    else t[j]
  }

  ghost predicate NumberJoined(k: seq<int>, t: seq<int>, t': seq<int>, i: nat, isArabic: bool)
  {
    && |k| == |t| == |t'| && i < |t|
    && forall j :: 0 <= j < |t| ==> t'[j] == Joined(k, t, j, i, isArabic)
  }

  /** The separator, the terminators, the other separator and the digit itself, in that order. */
  lemma JoinSteps(k: seq<int>, t0: seq<int>, t1: seq<int>, t2: seq<int>, t3: seq<int>, t': seq<int>,
                  i: nat, isArabic: bool, es: bool, cs: bool)
    requires i < |k| == |t0| == |t2| == |t3|
    requires es == (i >= 2 && k[i - 2] == EN && k[i - 1] == ES)
    requires cs == (i >= 2 && k[i - 2] == EN && k[i - 1] == CS)
    requires t1 == if !isArabic && es then t0[i - 1 := EN] else t0
    requires if isArabic then t2 == t1 else TerminatorsJoined(k, t1, t2, i)
    requires t3 == if cs then t2[i - 1 := if isArabic then AN else EN] else t2
    requires t' == t3[i := if isArabic then AN else EN]
    ensures NumberJoined(k, t0, t', i, isArabic)
  {
    forall j | 0 <= j < |t0| ensures t'[j] == Joined(k, t0, j, i, isArabic) {
      if !isArabic && j < i && (forall m :: j <= m < i ==> k[m] == ET) {
        assert k[j] == ET && k[i - 1] == ET;
      }
    }
  }

  /** The characters before h have the types that reading up to h gives them. */
  ghost predicate TypedTo(types: seq<int>, e: seq<int>, k: seq<int>, h: nat, second: bool)
    requires h <= |types| == |e| == |k|
  {
    forall j :: 0 <= j < h ==> types[j] == FinalTo(e, k, j, h, second)
  }

  /** What reading character i, of class c, does to the types up to it. */
  ghost predicate CharacterRead(k: seq<int>, t: seq<int>, t': seq<int>, i: nat, c: int, isArabic: bool, second: bool)
  {
    && |k| == |t| == |t'| && i < |t|
    && if c == EN then NumberJoined(k, t, t', i, isArabic)
       else if c == AN then
         t' == (if i >= 2 && k[i - 1] == CS && (if second then k[i - 2] == AN else t[i - 2] == AN)
                then t[i - 1 := AN][i := AN] else t[i := AN])
       else
         t' == t[i := if c in {B, L, R, S, W} then c
                      else if c == AL then R
                      else if c == ET then (if i > 0 && t[i - 1] == EN then EN else N)
                      else if c == NSM && !second && i > 0 then t[i - 1]
                      else N]
  }

  /** Before a separator that joins nothing yet, a character has no type but its own. */
  lemma BeforeSeparator(e: seq<int>, k: seq<int>, i: nat, second: bool)
    requires 2 <= i < |e| == |k|
    requires forall m :: 0 <= m < |e| ==> e[m] == k[m] || e[m] == B
    requires k[i - 1] == CS
    ensures FinalTo(e, k, i - 2, i, second) == Own(e, i - 2, second)
  {}

  /** Reading the characters one by one, with the patches each makes, gives every character the type that
      looking ahead gives it. */
  lemma TypedStep(e: seq<int>, k: seq<int>, i: nat, second: bool, t: seq<int>, t': seq<int>)
    requires i < |t| == |t'| == |e| == |k|
    requires forall m :: 0 <= m < |e| ==> e[m] == k[m] || e[m] == B
    requires TypedTo(t, e, k, i, second)
    requires CharacterRead(k, t, t', i, e[i], Arabic(e, i), second)
    ensures TypedTo(t', e, k, i + 1, second)
  {
    TypedLast(e, k, i, second, t, t');
    hide FinalTo, CharacterRead, Arabic;
    forall j | 0 <= j < i ensures t'[j] == FinalTo(e, k, j, i + 1, second) {
      EarlierTyped(e, k, j, i, second, t, t');
    }
  }

  /** The character just read has the type of its class. */
  lemma TypedLast(e: seq<int>, k: seq<int>, i: nat, second: bool, t: seq<int>, t': seq<int>)
    requires i < |t| == |t'| == |e| == |k|
    requires forall m :: 0 <= m < |e| ==> e[m] == k[m] || e[m] == B
    requires TypedTo(t, e, k, i, second)
    requires CharacterRead(k, t, t', i, e[i], Arabic(e, i), second)
    ensures t'[i] == FinalTo(e, k, i, i + 1, second)
  {
    hide FinalTo, Own, Arabic, CharacterRead;
    JustRead(e, k, i, second);
    if e[i] == EN {
      NumberRead(e, k, i, second, t, t');
    } else {
      if i > 0 {
        JustRead(e, k, i - 1, second);
      }
      OtherRead(e, k, i, second, t, t');
    }
  }

  lemma NumberRead(e: seq<int>, k: seq<int>, i: nat, second: bool, t: seq<int>, t': seq<int>)
    requires i < |t| == |t'| == |e| == |k| && e[i] == EN
    requires CharacterRead(k, t, t', i, e[i], Arabic(e, i), second)
    ensures t'[i] == Own(e, i, second)
  {
    hide Arabic;
    assert t'[i] == Joined(k, t, i, i, Arabic(e, i));
  }

  lemma OtherRead(e: seq<int>, k: seq<int>, i: nat, second: bool, t: seq<int>, t': seq<int>)
    requires i < |t| == |t'| == |e| == |k| && e[i] != EN
    requires i > 0 ==> t[i - 1] == Own(e, i - 1, second)
    requires CharacterRead(k, t, t', i, e[i], Arabic(e, i), second)
    ensures t'[i] == Own(e, i, second)
  {
    hide Arabic, NumberJoined;
  }

  lemma EarlierTyped(e: seq<int>, k: seq<int>, j: nat, i: nat, second: bool, t: seq<int>, t': seq<int>)
    requires j < i < |t| == |t'| == |e| == |k|
    requires forall m :: 0 <= m < |e| ==> e[m] == k[m] || e[m] == B
    requires TypedTo(t, e, k, i, second)
    requires CharacterRead(k, t, t', i, e[i], Arabic(e, i), second)
    ensures t'[j] == FinalTo(e, k, j, i + 1, second)
  {
    hide FinalTo, Own, Arabic;
    ReadNext(e, k, j, i, second);
    if 0 < j == i - 1 && k[j] == CS {
      BeforeSeparator(e, k, i, second);
    }
    if e[i] == EN {
      assert t'[j] == Joined(k, t, j, i, Arabic(e, i));
    }
  }
}
