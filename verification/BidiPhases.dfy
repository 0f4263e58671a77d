/** Which rules give the levels of each phase, told from the options. */
module BidiPhases {
  import opened BidiTables
  import opened BidiLevels
  import opened BidiReorder
  import opened BidiMachine
  import opened BidiOrdering
  import BidiTheorems
  import BidiLtr
  import BidiRtl
  import BidiVariants

  /** The level by the rules of a round trip, by those of UAX #9 in their right-to-left reading, by those compatible with
      Windows, or by those of UAX #9. */
  ghost function LevelByOptions(t: seq<int>, i: nat, rtl: bool, roundTrip: bool, winCompatible: bool, cur: int): int
    requires i < |t|
  {
    if roundTrip then (if rtl then BidiVariants.TripRtlLevel(t, i, cur) else BidiVariants.TripLtrLevel(t, i, cur))
    else if rtl then BidiRtl.MachineReading(t, cur)[i]
    else if winCompatible then BidiVariants.WindowsLevel(t, i, cur)
    else Uax9Levels(t, L, cur)[i]
  }

  lemma ChosenLevels(t: seq<int>, rtl: bool, roundTrip: bool, winCompatible: bool, cur: int)
    requires TypesOk(t)
    ensures var tab := ChooseTable(rtl, roundTrip, winCompatible, false);
            && TableOk(tab)
            && forall i :: 0 <= i < |t| ==>
                 MachineLevels(tab, cur, t)[i] == LevelByOptions(t, i, rtl, roundTrip, winCompatible, cur)
  {
    hide TypesOk, TableOk, MachineLevels, BidiVariants.TripRtlLevel, BidiVariants.TripLtrLevel,
         BidiVariants.WindowsLevel, Uax9Levels, BidiRtl.MachineReading;
    BidiVariants.TripRtlMachine(t, cur);
    BidiVariants.TripLtrMachine(t, cur);
    BidiVariants.WindowsMachine(t, cur);
    BidiRtl.RtlMachineReading(t, cur);
    BidiLtr.LtrMachineIsUax9(t, cur);
  }

  /** One phase works on the base direction of the logical side. Visual text on either side is ordered by the levels,
      from the side the output begins; text that is logical on both sides keeps its order. */
  lemma OnePhaseLevels(o: Options, b: seq<int>, cls: int -> int, ph: Phase)
    requires SinglePhase(o, b, cls, ph)
    ensures |ph.types| == |ph.levels| == |b|
    ensures var rtl := if o.visualIn && !o.visualOut then o.rtlOut else o.rtlIn;
            var cur := if rtl then 1 else if o.rtlOut then 2 else 0;
            forall i :: 0 <= i < |b| ==>
              ph.levels[i] == LevelByOptions(ph.types, i, rtl, o.roundTrip, o.winCompatible, cur)
    ensures if o.visualIn || o.visualOut
            then IsPermutation(ph.order, |b|) && ShownByLevels(ph.order, ph.levels, if o.rtlOut then 1 else 0)
            else |ph.order| == |b| && forall i :: 0 <= i < |b| ==> ph.order[i] == i
  {
    hide FirstTypes, LevelByOptions, ChooseTable, MachineLevels, TypesOk, TableOk, ShownByLevels, IsPermutation;
    ChosenLevels(ph.types, o.RtlBase(), o.roundTrip, o.winCompatible, CurrentLevel(o.RtlBase(), o.rtlOut));
  }

  /** The first of two phases works on the orientation of the source and shows from left to right, the second on that of
      the destination. */
  lemma TwoPhaseLevels(o: Options, b: seq<int>, cls: int -> int, first: Phase, second: Phase)
    requires o.TwoPhases() && DoublePhase(o, b, cls, first, second)
    ensures |first.types| == |first.levels| == |second.types| == |second.levels| == |b|
    ensures forall i :: 0 <= i < |b| ==>
              first.levels[i] ==
              LevelByOptions(first.types, i, o.rtlIn, o.roundTrip, o.winCompatible, if o.rtlIn then 1 else 0)
    ensures forall i :: 0 <= i < |b| ==>
              second.levels[i] ==
              LevelByOptions(second.types, i, o.rtlOut, o.roundTrip, o.winCompatible, if o.rtlOut then 1 else 0)
    ensures IsPermutation(first.order, |b|) && ShownByLevels(first.order, first.levels, 0)
    ensures IsPermutation(second.order, |b|) && ShownByLevels(second.order, second.levels, if o.rtlOut then 1 else 0)
  {
    hide FirstTypes, SecondTypes, SecondMarks, LevelByOptions, ChooseTable, MachineLevels, TypesOk, TableOk,
         ShownByLevels, IsPermutation, Between;
    ChosenLevels(first.types, o.rtlIn, o.roundTrip, o.winCompatible, CurrentLevel(o.rtlIn, false));
    ChosenLevels(second.types, !o.rtlIn, o.roundTrip, o.winCompatible, CurrentLevel(!o.rtlIn, o.rtlOut));
  }
}
