/** The whole reordering of a text, in one phase or (implicit to implicit) two, without marker insertion. */
module BidiOrdering {
  import opened BidiTables
  import opened BidiLevels
  import opened BidiReorder
  import opened BidiPasses
  import opened BidiTypes
  import opened BidiMachine

  /** The resolved settings of one transformation. */
  datatype Options = Options(
    rtlIn: bool, rtlOut: bool, visualIn: bool, visualOut: bool, swapIn: bool, swapOut: bool,
    numerals: Numerals, impToImp: bool, roundTrip: bool, winCompatible: bool, removeMarkers: bool,
    delim1: int, delim2: int)
  {
    predicate ImplicitBoth() { !visualIn && !visualOut }
    predicate TwoPhases() { impToImp && ImplicitBoth() && rtlIn != rtlOut }
    predicate InvertsInput() { visualIn && !visualOut && rtlIn != rtlOut }
    predicate RtlBase() { if InvertsInput() then rtlOut else rtlIn }
    predicate Symmetric() { !ImplicitBoth() && swapIn != swapOut }
  }

  datatype Ordered = Ordered(text: seq<int>, dstToSrc: seq<int>, srcToDst: seq<int>)

  /** What one phase decided: the type and level of every index and the order they are shown in. */
  datatype Phase = Phase(types: seq<int>, levels: seq<int>, order: seq<int>)

  /** The text in display order: source index, class with mirroring mark, and final type of each place. */
  datatype Layout = Layout(full: seq<int>, marks: seq<int>, types: seq<int>)

  function Reversed(a: seq<int>): (r: seq<int>)
    ensures |r| == |a|
    ensures forall i :: 0 <= i < |a| ==> r[i] == a[|a| - 1 - i]
  {
    seq(|a|, i requires 0 <= i < |a| => a[|a| - 1 - i])
  }

  function Buffer(src: seq<int>, o: Options): (b: seq<int>)
    ensures |b| == |src|
  {
    if o.InvertsInput() then Reversed(src) else src
  }

  ghost predicate PhaseOk(ph: Phase, n: nat, tab: Table, cur: int, reverse: bool, rtlOut: bool)
  {
    && |ph.types| == |ph.levels| == n
    && TypesOk(ph.types) && TableOk(tab)
    && ph.levels == MachineLevels(tab, cur, ph.types)
    && IsPermutation(ph.order, n)
    && if reverse then ShownByLevels(ph.order, ph.levels, if rtlOut then 1 else 0) else ph.order == Identity(n)
  }

  /** One phase: the buffer is typed, levelled and shown by its levels, unless both sides are implicit. */
  ghost predicate SinglePhase(o: Options, b: seq<int>, cls: int -> int, ph: Phase)
  {
    && PhaseOk(ph, |b|, ChooseTable(o.RtlBase(), o.roundTrip, o.winCompatible, false),
               CurrentLevel(o.RtlBase(), o.rtlOut), !o.ImplicitBoth(), o.rtlOut)
    && ph.types == FirstTypes(b, cls, o.delim1, o.delim2, o.visualIn && o.visualOut)
  }

  function SingleLayout(o: Options, b: seq<int>, cls: int -> int, ph: Phase): Layout
    requires |ph.types| == |ph.levels| == |b| && InRange(ph.order, |b|)
  {
    Layout(ph.order,
           Permuted(Marks(RawClasses(b, cls), ph.levels, o.Symmetric()), ph.order),
           Permuted(ph.types, ph.order))
  }

  /** The order in which the second phase reads the text: the first phase's display order, turned around
      when the source is left to right. */
  function Between(o: Options, first: Phase): (p: seq<int>)
    ensures |p| == |first.order|
  {
    if o.rtlIn then first.order else Reversed(first.order)
  }

  function SecondMarks(o: Options, b: seq<int>, cls: int -> int, first: Phase): (k: seq<int>)
    requires |first.levels| == |b| && InRange(first.order, |b|)
    ensures |k| == |b|
  {
    Permuted(Marks(RawClasses(b, cls), first.levels, o.swapIn), Between(o, first))
  }

  /** Two phases: to a left-to-right line first, then from that line to the other orientation. */
  ghost predicate DoublePhase(o: Options, b: seq<int>, cls: int -> int, first: Phase, second: Phase)
  {
    && PhaseOk(first, |b|, ChooseTable(o.rtlIn, o.roundTrip, o.winCompatible, false),
               CurrentLevel(o.rtlIn, false), true, false)
    && first.types == FirstTypes(b, cls, o.delim1, o.delim2, false)
    && PhaseOk(second, |b|, ChooseTable(!o.rtlIn, o.roundTrip, o.winCompatible, false),
               CurrentLevel(!o.rtlIn, o.rtlOut), true, o.rtlOut)
    && second.types == SecondTypes(SecondMarks(o, b, cls, first), Permuted(first.types, Between(o, first)), o.delim1)
  }

  function DoubleLayout(o: Options, b: seq<int>, cls: int -> int, first: Phase, second: Phase): Layout
    requires |first.levels| == |second.levels| == |second.types| == |b|
    requires InRange(first.order, |b|) && InRange(second.order, |b|)
  {
    Layout(Permuted(Between(o, first), second.order),
           Permuted(Marks(SecondMarks(o, b, cls, first), second.levels, o.swapOut), second.order),
           Permuted(second.types, second.order))
  }

  // ------------------------------------------------------------------ from layout to result

  function Units(b: seq<int>, l: Layout, numerals: Numerals): (u: seq<int>)
    requires InRange(l.full, |b|) && |l.marks| == |l.types| == |b|
    ensures |u| == |b|
  {
    seq(|b|, i requires 0 <= i < |b| => OutUnit(b[l.full[i]], l.marks[i], l.types[i], numerals))
  }

  function Places(u: seq<int>, removeMarkers: bool): (k: seq<int>)
    ensures forall i :: 0 <= i < |k| ==> 0 <= k[i] < |u|
  {
    if removeMarkers then Kept(u) else Identity(|u|)
  }

  function Sources(full: seq<int>, inverted: bool): (s: seq<int>)
    ensures |s| == |full|
  {
    seq(|full|, i requires 0 <= i < |full| => if inverted then |full| - full[i] - 1 else full[i])
  }

  /** The result of a layout: the substituted characters and their sources, without the markers when these
      are removed, and for every source position the place it went to. */
  ghost predicate Rendered(o: Options, b: seq<int>, l: Layout, r: Ordered)
  {
    && IsPermutation(l.full, |b|) && |l.marks| == |l.types| == |b|
    && var u := Units(b, l, o.numerals);
       var keep := Places(u, o.removeMarkers);
       && r.text == Selected(u, keep)
       && r.dstToSrc == Selected(Sources(l.full, o.InvertsInput()), keep)
       && |r.srcToDst| == |b|
       && InverseOf(r.srcToDst, r.dstToSrc)
  }

  method WriteUnits(o: Options, b: seq<int>, map': array<int>, origType: array<int>, finalType: array<int>,
                    ghost l: Layout) returns (out: array<int>)
    requires map'.Length == origType.Length == finalType.Length == |b|
    requires IsPermutation(l.full, |b|) && map'[..] == l.full
    requires Permuted(origType[..], l.full) == l.marks && Permuted(finalType[..], l.full) == l.types
    ensures fresh(out) && out.Length == |b| && out[..] == Units(b, l, o.numerals)
  {
    hide OutUnit;
    out := Pass3(b, map', origType, finalType, o.numerals);
    ghost var u := Units(b, l, o.numerals);
    forall i | 0 <= i < |b| ensures out[i] == u[i] {
      assert l.full[i] == map'[i];
      assert l.marks[i] == origType[map'[i]] && l.types[i] == finalType[map'[i]];
    }
  }

  /** Pass 3, the source positions, marker removal and the inverse map. */
  method Render(o: Options, b: seq<int>, map': array<int>, origType: array<int>, finalType: array<int>,
                ghost l: Layout) returns (r: Ordered)
    requires map'.Length == origType.Length == finalType.Length == |b|
    requires map' != origType && map' != finalType
    requires IsPermutation(l.full, |b|) && map'[..] == l.full
    requires Permuted(origType[..], l.full) == l.marks && Permuted(finalType[..], l.full) == l.types
    modifies map'
    ensures Rendered(o, b, l, r)
  {
    hide Kept, Injective, OutUnit;
    ghost var u := Units(b, l, o.numerals);
    var out := WriteUnits(o, b, map', origType, finalType, l);
    hide Units;
    ToSources(map', o.InvertsInput());
    var count := |b|;
    if o.removeMarkers {
      var removeCnt := RemoveMarkers(out, map');
      count := count - removeCnt;
    } else {
      assert out[..count] == Selected(u, Identity(|b|));
      assert map'[..count] == Selected(Sources(l.full, o.InvertsInput()), Identity(|b|));
    }
    ghost var keep := Places(u, o.removeMarkers);
    SelectedInjective(l.full, o.InvertsInput(), keep);
    var back := Invert(map', count, |b|, seq(|b|, _ => 0));
    r := Ordered(out[..count], map'[..count], back[..]);
  }

  /** Positions in the inverted buffer become positions in the source. */
  method ToSources(map': array<int>, inverted: bool)
    modifies map'
    ensures map'[..] == Sources(old(map'[..]), inverted)
  {
    if inverted {
      var i := 0;
      while i < map'.Length
        invariant 0 <= i <= map'.Length
        invariant forall j :: 0 <= j < i ==> map'[j] == map'.Length - old(map'[j]) - 1
        invariant forall j :: i <= j < map'.Length ==> map'[j] == old(map'[j])
      {
        map'[i] := map'.Length - map'[i] - 1;
        i := i + 1;
      }
    }
  }

  lemma SelectedInjective(full: seq<int>, inverted: bool, keep: seq<int>)
    requires IsPermutation(full, |full|)
    requires forall i :: 0 <= i < |keep| ==> 0 <= keep[i] < |full|
    requires forall i, j :: 0 <= i < j < |keep| ==> keep[i] < keep[j]
    ensures forall i :: 0 <= i < |keep| ==> 0 <= Selected(Sources(full, inverted), keep)[i] < |full|
    ensures Injective(Selected(Sources(full, inverted), keep))
  {}

  // ------------------------------------------------------------------ the phases and the whole

  /** Restarts the object on the table for the base direction. */
  method Restart(m: BidiOrder, rtlIn: bool, rtlOut: bool, roundTrip: bool)
    requires m.Shape() && -1 <= m.lastStrongRTL && -2 <= m.startL2EN
    modifies m`ucbBasLev, m`ucbOutLev, m`ucbCurLev, m`impTab, m`insertCnt, m`insertPoints,
             m`startL2EN, m`lastStrongRTL, m`ucbImpSta, m`ucbCondPos
    ensures m.Shape() && m.Restarted() && Plain(m.impTab) && !InsertsInLtr(m.impTab)
    ensures m.impTab == ChooseTable(rtlIn, roundTrip, m.winCompatible, false)
    ensures m.ucbCurLev == CurrentLevel(rtlIn, rtlOut)
  {
    m.BaseLvl(rtlIn, rtlOut, roundTrip, false);
    ChosenTable(rtlIn, roundTrip, m.winCompatible, false);
  }

  lemma StartedFromIdentity(q: seq<int>, n: nat)
    requires IsPermutation(q, n)
    ensures Permuted(Identity(n), q) == q
  {}

  method InvertAll(a: array<int>)
    modifies a
    ensures a[..] == Reversed(old(a[..]))
  {
    InvertInts(a, 0, a.Length - 1);
  }

  method RunSingle(m: BidiOrder, o: Options, b: seq<int>, cls: int -> int) returns (ghost ph: Phase)
    requires m.Shape() && m.icsSize == |b| && m.winCompatible == o.winCompatible
    requires -1 <= m.lastStrongRTL && -2 <= m.startL2EN
    requires NonNegative(RawClasses(b, cls))
    modifies m, m.origType, m.finalType, m.propertyMap, m.dstToSrcMap
    ensures m.Shape()
    ensures SinglePhase(o, b, cls, ph)
    ensures m.dstToSrcMap[..] == ph.order
    ensures m.origType[..] == Marks(RawClasses(b, cls), ph.levels, o.Symmetric())
    ensures m.finalType[..] == ph.types
  {
    hide ChooseTable, FirstTypes, MachineLevels, Marks, RawClasses, TypesOk, TableOk, NonNegative, Injective, InRange,
         ShownByLevels, Permuted;
    Restart(m, o.RtlBase(), o.rtlOut, o.roundTrip);
    m.FirstLevels(b, cls, o.delim1, o.delim2, o.visualIn && o.visualOut, o.Symmetric(), 0);
    ghost var levels := m.propertyMap[..];
    hide PhaseOk, SinglePhase, IsPermutation;
    ghost var q := Pass2(m.dstToSrcMap, m.propertyMap, 0, !o.ImplicitBoth(), o.rtlOut);
    ph := Phase(m.finalType[..], levels, q);
    StartedFromIdentity(q, |b|);
    PhaseFound(ph, |b|, m.impTab, m.ucbCurLev, !o.ImplicitBoth(), o.rtlOut);
    SingleFound(o, b, cls, ph);
  }

  lemma SingleFound(o: Options, b: seq<int>, cls: int -> int, ph: Phase)
    requires PhaseOk(ph, |b|, ChooseTable(o.RtlBase(), o.roundTrip, o.winCompatible, false),
                     CurrentLevel(o.RtlBase(), o.rtlOut), !o.ImplicitBoth(), o.rtlOut)
    requires ph.types == FirstTypes(b, cls, o.delim1, o.delim2, o.visualIn && o.visualOut)
    ensures SinglePhase(o, b, cls, ph)
  {}

  lemma PhaseFound(ph: Phase, n: nat, tab: Table, cur: int, reverse: bool, rtlOut: bool)
    requires |ph.types| == |ph.levels| == n && TypesOk(ph.types) && TableOk(tab)
    requires ph.levels == MachineLevels(tab, cur, ph.types) && IsPermutation(ph.order, n)
    requires if reverse then ShownByLevels(ph.order, ph.levels, if rtlOut then 1 else 0) else ph.order == Identity(n)
    ensures PhaseOk(ph, n, tab, cur, reverse, rtlOut)
  {
    hide TypesOk, TableOk, MachineLevels, ShownByLevels;
  }

  /** The first of two phases, up to the order in which the second reads the text. */
  method RunFirst(m: BidiOrder, o: Options, b: seq<int>, cls: int -> int) returns (ghost first: Phase)
    requires m.Shape() && m.icsSize == |b| && m.winCompatible == o.winCompatible
    requires -1 <= m.lastStrongRTL && -2 <= m.startL2EN
    requires NonNegative(RawClasses(b, cls))
    modifies m, m.origType, m.finalType, m.propertyMap, m.dstToSrcMap
    ensures m.Shape() && -1 <= m.lastStrongRTL && -2 <= m.startL2EN
    ensures PhaseOk(first, |b|, ChooseTable(o.rtlIn, o.roundTrip, o.winCompatible, false),
                    CurrentLevel(o.rtlIn, false), true, false)
    ensures first.types == FirstTypes(b, cls, o.delim1, o.delim2, false)
    ensures m.dstToSrcMap[..] == Between(o, first)
    ensures m.origType[..] == Marks(RawClasses(b, cls), first.levels, o.swapIn)
    ensures m.finalType[..] == first.types
  {
    hide ChooseTable, FirstTypes, MachineLevels, Marks, RawClasses, TypesOk, TableOk, NonNegative, Injective, InRange,
         ShownByLevels, Permuted;
    Restart(m, o.rtlIn, false, o.roundTrip);
    m.FirstLevels(b, cls, o.delim1, o.delim2, false, o.swapIn, 1);
    ghost var levels := m.propertyMap[..];
    ghost var q := Pass2(m.dstToSrcMap, m.propertyMap, 1, true, false);
    first := Phase(m.finalType[..], levels, q);
    StartedFromIdentity(q, |b|);
    if !o.rtlIn {
      InvertAll(m.dstToSrcMap);
    }
  }

  /** The second phase, over the text in the order p. */
  method RunSecond(m: BidiOrder, o: Options, ghost p: seq<int>) returns (ghost second: Phase)
    requires m.Shape() && m.winCompatible == o.winCompatible
    requires -1 <= m.lastStrongRTL && -2 <= m.startL2EN
    requires m.dstToSrcMap[..] == p && IsPermutation(p, m.icsSize)
    modifies m, m.origType, m.finalType, m.propertyMap, m.dstToSrcMap
    ensures m.Shape()
    ensures PhaseOk(second, m.icsSize, ChooseTable(!o.rtlIn, o.roundTrip, o.winCompatible, false),
                    CurrentLevel(!o.rtlIn, o.rtlOut), true, o.rtlOut)
    ensures second.types ==
            SecondTypes(Permuted(old(m.origType[..]), p), Permuted(old(m.finalType[..]), p), o.delim1)
    ensures m.dstToSrcMap[..] == Permuted(p, second.order)
    ensures Permuted(m.origType[..], p) == Marks(Permuted(old(m.origType[..]), p), second.levels, o.swapOut)
    ensures Permuted(m.finalType[..], p) == second.types
  {
    hide ChooseTable, SecondTypes, MachineLevels, Marks, TypesOk, TableOk;
    Restart(m, !o.rtlIn, o.rtlOut, o.roundTrip);
    m.SecondLevels(o.delim1, o.swapOut);
    ghost var levels := m.propertyMap[..];
    ghost var q := Pass2(m.dstToSrcMap, m.propertyMap, 2, true, o.rtlOut);
    second := Phase(Permuted(m.finalType[..], p), levels, q);
  }

  method RunDouble(m: BidiOrder, o: Options, b: seq<int>, cls: int -> int)
    returns (ghost first: Phase, ghost second: Phase)
    requires m.Shape() && m.icsSize == |b| && m.winCompatible == o.winCompatible
    requires -1 <= m.lastStrongRTL && -2 <= m.startL2EN
    requires NonNegative(RawClasses(b, cls))
    modifies m, m.origType, m.finalType, m.propertyMap, m.dstToSrcMap
    ensures m.Shape()
    ensures DoublePhase(o, b, cls, first, second)
    ensures var p := Between(o, first);
            && m.dstToSrcMap[..] == Permuted(p, second.order)
            && Permuted(m.origType[..], p) == Marks(SecondMarks(o, b, cls, first), second.levels, o.swapOut)
            && Permuted(m.finalType[..], p) == second.types
  {
    first := RunFirst(m, o, b, cls);
    ghost var p := Between(o, first);
    BetweenPermutes(o, first);
    second := RunSecond(m, o, p);
  }

  lemma BetweenPermutes(o: Options, first: Phase)
    requires IsPermutation(first.order, |first.order|)
    ensures IsPermutation(Between(o, first), |first.order|)
  {}

  lemma Composed(a: seq<int>, p: seq<int>, q: seq<int>)
    requires IsPermutation(p, |a|) && IsPermutation(q, |a|)
    ensures IsPermutation(Permuted(p, q), |a|)
    ensures Permuted(a, Permuted(p, q)) == Permuted(Permuted(a, p), q)
  {}

  lemma BufferClasses(src: seq<int>, cls: int -> int, o: Options)
    requires NonNegative(RawClasses(src, cls))
    ensures NonNegative(RawClasses(Buffer(src, o), cls))
  {
    var b := Buffer(src, o);
    forall i | 0 <= i < |b| ensures 0 <= RawClasses(b, cls)[i] {
      var j := if o.InvertsInput() then |src| - 1 - i else i;
      assert b[i] == src[j] && 0 <= RawClasses(src, cls)[j];
    }
  }

  /** Reorders a text. cls gives the bidi class of a character. */
  method Order(src: seq<int>, cls: int -> int, o: Options)
    returns (r: Ordered, ghost first: Phase, ghost second: Phase)
    requires NonNegative(RawClasses(src, cls))
    ensures |src| == 0 ==> r == Ordered([], [], [])
    ensures |src| > 0 && (o.visualIn || o.visualOut || o.rtlIn == o.rtlOut || !o.impToImp) ==>
              && SinglePhase(o, Buffer(src, o), cls, first)
              && Rendered(o, Buffer(src, o), SingleLayout(o, Buffer(src, o), cls, first), r)
    ensures |src| > 0 && !o.visualIn && !o.visualOut && o.rtlIn != o.rtlOut && o.impToImp ==>
              && DoublePhase(o, Buffer(src, o), cls, first, second)
              && Rendered(o, Buffer(src, o), DoubleLayout(o, Buffer(src, o), cls, first, second), r)
  {
    hide ChooseTable, FirstTypes, SecondTypes, MachineLevels, Marks, RawClasses, TypesOk, TableOk, Rendered;
    first, second := Phase([], [], []), Phase([], [], []);
    if |src| < 1 {
      return Ordered([], [], []), first, second;
    }
    var b := if o.InvertsInput() then seq(|src|, k requires 0 <= k < |src| => src[|src| - 1 - k]) else src;
    assert b == Buffer(src, o);
    BufferClasses(src, cls, o);
    var m := new BidiOrder(|b|, o.winCompatible);
    if o.TwoPhases() {
      first, second := RunDouble(m, o, b, cls);
      ghost var p := Between(o, first);
      BetweenPermutes(o, first);
      Composed(m.origType[..], p, second.order);
      Composed(m.finalType[..], p, second.order);
      r := Render(o, b, m.dstToSrcMap, m.origType, m.finalType, DoubleLayout(o, b, cls, first, second));
    } else {
      first := RunSingle(m, o, b, cls);
      r := Render(o, b, m.dstToSrcMap, m.origType, m.finalType, SingleLayout(o, b, cls, first));
    }
  }
}
