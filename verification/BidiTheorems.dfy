/** What the reordering promises as a whole. */
module BidiTheorems {
  import opened BidiTables
  import opened BidiLevels
  import opened BidiReorder
  import opened BidiPasses
  import opened BidiMachine
  import opened BidiOrdering
  import BidiLtr
  import BidiRtl

  /** The base direction is the orientation of the logical side: the source, or the destination when only that is
      logical. */
  predicate LogicalIsRtl(o: Options)
  {
    if o.visualIn && !o.visualOut then o.rtlOut else o.rtlIn
  }

  /** Left-to-right text with the default settings: the levels are those of UAX #9, above 2 in text shown right to
      left, and the map is the one order they allow. */
  lemma LeftToRightIsUax9(o: Options, b: seq<int>, cls: int -> int, ph: Phase, p: seq<int>)
    requires SinglePhase(o, b, cls, ph)
    requires !LogicalIsRtl(o) && !o.roundTrip && !o.winCompatible && (o.visualIn || o.visualOut)
    requires IsPermutation(p, |b|) &&
             ShownByLevels(p, Uax9Levels(ph.types, L, if o.rtlOut then 2 else 0), if o.rtlOut then 1 else 0)
    ensures ph.levels == Uax9Levels(ph.types, L, if o.rtlOut then 2 else 0)
    ensures ph.order == p
  {
    BidiLtr.LtrMachineIsUax9(ph.types, if o.rtlOut then 2 else 0);
    ShownByLevelsUnique(ph.order, p, ph.levels, if o.rtlOut then 1 else 0, |b|);
    assert ph.order[..|b|] == ph.order && p[..|b|] == p;
  }

  /** The same for a right-to-left base, exactly when the types have no number cut off by an AN. */
  lemma RightToLeftIsUax9Iff(o: Options, b: seq<int>, cls: int -> int, ph: Phase)
    requires SinglePhase(o, b, cls, ph)
    requires LogicalIsRtl(o) && !o.roundTrip
    ensures ph.levels == Uax9Levels(ph.types, R, 1) <==> !BidiRtl.HasCutOff(ph.types)
  {
    BidiRtl.RtlMachineIsUax9Iff(ph.types, 1);
  }

  /** A character or one of its substitutes. */
  predicate Substitute(y: int, x: int)
  {
    y == x || y == Symmetric(x) || y == (x + 0x0630) % 0x10000 || y == (x - 0x0630) % 0x10000
  }

  /** Source position s is shown by a marker. */
  predicate ShownAsMarker(o: Options, src: seq<int>, l: Layout, s: int)
    requires IsPermutation(l.full, |src|) && |l.marks| == |l.types| == |src|
  {
    exists i :: 0 <= i < |src| && Sources(l.full, o.InvertsInput())[i] == s &&
                IsMarker(Units(Buffer(src, o), l, o.numerals)[i])
  }

  lemma MapsInvert(o: Options, src: seq<int>, l: Layout, r: Ordered)
    requires Rendered(o, Buffer(src, o), l, r)
    ensures |r.text| == |r.dstToSrc| <= |src| && |r.srcToDst| == |src|
    ensures forall i :: 0 <= i < |r.text| ==>
              0 <= r.dstToSrc[i] < |src| && Substitute(r.text[i], src[r.dstToSrc[i]])
    ensures forall i :: 0 <= i < |r.text| ==> r.srcToDst[r.dstToSrc[i]] == i
    ensures forall i :: 0 <= i < |r.text| && o.removeMarkers ==> !IsMarker(r.text[i])
    ensures !o.removeMarkers ==> IsPermutation(r.dstToSrc, |src|)
    ensures IsPermutation(l.full, |src|) && |l.marks| == |l.types| == |src|
  {}

  /** Every output character stands for the source character its map entry names, and the source positions that
      have no entry are markers that were to be removed. */
  lemma OutputComesFromSource(o: Options, src: seq<int>, l: Layout, r: Ordered)
    requires Rendered(o, Buffer(src, o), l, r)
    ensures |r.text| == |r.dstToSrc| <= |src| && |r.srcToDst| == |src|
    ensures forall i :: 0 <= i < |r.text| ==>
              0 <= r.dstToSrc[i] < |src| && Substitute(r.text[i], src[r.dstToSrc[i]])
    ensures forall i :: 0 <= i < |r.text| ==> r.srcToDst[r.dstToSrc[i]] == i
    ensures forall i :: 0 <= i < |r.text| && o.removeMarkers ==> !IsMarker(r.text[i])
    ensures !o.removeMarkers ==> IsPermutation(r.dstToSrc, |src|)
    ensures forall s :: 0 <= s < |src| && r.srcToDst[s] == -1 ==> o.removeMarkers && ShownAsMarker(o, src, l, s)
  {
    hide ShownAsMarker, Rendered, Substitute, IsPermutation, IsMarker;
    MapsInvert(o, src, l, r);
    forall s | 0 <= s < |src| && r.srcToDst[s] == -1 ensures o.removeMarkers && ShownAsMarker(o, src, l, s) {
      OnlyMarkersRemoved(o, src, l, r, s);
    }
  }

  lemma KeptUnlessMarker(u: seq<int>, removeMarkers: bool, i: nat)
    requires i < |u|
    ensures !removeMarkers || !IsMarker(u[i]) ==> i in Places(u, removeMarkers)
  {
    if removeMarkers {
      if !IsMarker(u[i]) {
        KeptComplete(u, i);
      }
    } else {
      assert Identity(|u|)[i] == i;
    }
  }

  /** Nothing but a marker is ever removed. */
  lemma OnlyMarkersRemoved(o: Options, src: seq<int>, l: Layout, r: Ordered, s: nat)
    requires Rendered(o, Buffer(src, o), l, r) && s < |src|
    requires r.srcToDst[s] == -1
    ensures o.removeMarkers && ShownAsMarker(o, src, l, s)
  {
    var b := Buffer(src, o);
    var u := Units(b, l, o.numerals);
    var keep := Places(u, o.removeMarkers);
    var sources := Sources(l.full, o.InvertsInput());
    var want := if o.InvertsInput() then |src| - s - 1 else s;
    var i := Surjective(l.full, |b|, want);
    assert sources[i] == s;
    KeptUnlessMarker(u, o.removeMarkers, i);
  }
}
