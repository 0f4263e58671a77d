/** The whole layout of a text for the host or for the program: reordering, shaping when one side holds
    presentation forms, and spaces in place of what marker removal leaves behind. */
module BidiLayout {

  import opened BidiMachine
  import opened BidiOrdering
  import opened BidiReorder
  import opened BidiPasses
  import BidiTheorems
  import ArabicTables
  import ArabicShaping
  import ArabicPasses
  import ArabicDeshaping

  datatype Shaping = NoShaping | ToVisual(rtl: bool) | ToLogical(rtl: bool)

  predicate NonNegativeText(s: seq<int>) { forall i :: 0 <= i < |s| ==> 0 <= s[i] }

  lemma SymmetricNonNegative(x: int)
    requires 0 <= x
    ensures 0 <= Symmetric(x)
  {
    PairsAreUnits();
    MirrorNonNegative(SYM_PAIRS, x);
  }

  lemma MirrorNonNegative(p: Pairs, x: int)
    requires 0 <= x && forall i :: 0 <= i < |p| ==> 0 <= p[i].1
    ensures 0 <= MirrorIn(p, x)
  {}

  lemma PairsAreUnits()
    ensures forall i :: 0 <= i < |SYM_PAIRS| ==> 0 <= SYM_PAIRS[i].1
  {}

  lemma SubstituteNonNegative(y: int, x: int)
    requires BidiTheorems.Substitute(y, x) && 0 <= x
    ensures 0 <= y
  {
    SymmetricNonNegative(x);
    hide Symmetric;
  }

  /** The units of an ordered text are units. */
  lemma OrderedUnits(o: Options, src: seq<int>, l: Layout, r: Ordered)
    requires Rendered(o, Buffer(src, o), l, r) && NonNegativeText(src)
    ensures NonNegativeText(r.text) && |r.text| <= |src| && (!o.removeMarkers ==> |r.text| == |src|)
  {
    BidiTheorems.OutputComesFromSource(o, src, l, r);
    hide Rendered, BidiTheorems.Substitute;
    forall i | 0 <= i < |r.text| ensures 0 <= r.text[i] {
      SubstituteNonNegative(r.text[i], src[r.dstToSrc[i]]);
    }
  }

  lemma OnePhaseUnits(o: Options, src: seq<int>, cls: int -> int, ph: Phase, r: Ordered)
    requires SinglePhase(o, Buffer(src, o), cls, ph) && NonNegativeText(src)
    requires Rendered(o, Buffer(src, o), SingleLayout(o, Buffer(src, o), cls, ph), r)
    ensures NonNegativeText(r.text) && |r.text| <= |src| && (!o.removeMarkers ==> |r.text| == |src|)
  {
    var l := SingleLayout(o, Buffer(src, o), cls, ph);
    hide Rendered, SinglePhase;
    OrderedUnits(o, src, l, r);
  }

  lemma TwoPhaseUnits(o: Options, src: seq<int>, cls: int -> int, first: Phase, second: Phase, r: Ordered)
    requires DoublePhase(o, Buffer(src, o), cls, first, second) && NonNegativeText(src)
    requires Rendered(o, Buffer(src, o), DoubleLayout(o, Buffer(src, o), cls, first, second), r)
    ensures NonNegativeText(r.text) && |r.text| <= |src| && (!o.removeMarkers ==> |r.text| == |src|)
  {
    var l := DoubleLayout(o, Buffer(src, o), cls, first, second);
    hide Rendered, DoublePhase;
    OrderedUnits(o, src, l, r);
  }

  /** Spaces after the valid units. */
  function Padded(s: seq<nat>, n: nat): (r: seq<nat>)
    ensures |s| <= n ==> |r| == n && r[..|s|] == s && forall i :: |s| <= i < n ==> r[i] == ArabicTables.Space
  {
    if |s| >= n then s else s + seq(n - |s|, i => ArabicTables.Space)
  }

  function Shape(s: seq<nat>, shaping: Shaping): seq<nat>
  {
    match shaping
    case NoShaping => s
    case ToVisual(rtl) =>
      var logical := ArabicShaping.ShapedText(ArabicShaping.InOrder(s, rtl), ArabicShaping.BeyondPlace(|s|, rtl));
      ArabicShaping.InOrder(ArabicPasses.Passed(logical), rtl)
    case ToLogical(rtl) => ArabicDeshaping.Deshaped(s, rtl)
  }

  lemma InOrderBack(s: seq<nat>, t: seq<nat>, rtl: bool)
    requires ArabicShaping.InOrder(s, rtl) == t
    ensures s == ArabicShaping.InOrder(t, rtl)
  {}

  lemma InOrderAgain(s: seq<nat>, rtl: bool)
    ensures forall t :: s == ArabicShaping.InOrder(t, rtl) ==> ArabicShaping.InOrder(s, rtl) == t
  {}

  method ShapeUnits(s: seq<nat>, shaping: Shaping) returns (r: seq<nat>)
    ensures |r| == |s| && r == Shape(s, shaping)
  {
    hide ArabicShaping.InOrder, ArabicPasses.Passed, ArabicDeshaping.Deshaped;
    var a := new nat[|s|](i requires 0 <= i < |s| => s[i]);
    assert a[..] == s;
    match shaping {
      case NoShaping =>
      case ToVisual(rtl) =>
        ArabicDeshaping.ShapeText(a, rtl);
        InOrderBack(a[..], ArabicShaping.InOrder(a[..], rtl), rtl);
      case ToLogical(rtl) => ArabicDeshaping.DeshapeText(a, rtl);
    }
    return a[..];
  }

  /** The reordered text: what Order promises. */
  ghost predicate Reorders(src: seq<int>, cls: int -> int, o: Options, r: Ordered, first: Phase, second: Phase)
  {
    && (|src| == 0 ==> r == Ordered([], [], []))
    && (|src| > 0 && !o.TwoPhases() ==>
          && SinglePhase(o, Buffer(src, o), cls, first)
          && Rendered(o, Buffer(src, o), SingleLayout(o, Buffer(src, o), cls, first), r))
    && (|src| > 0 && o.TwoPhases() ==>
          && DoublePhase(o, Buffer(src, o), cls, first, second)
          && Rendered(o, Buffer(src, o), DoubleLayout(o, Buffer(src, o), cls, first, second), r))
  }

  lemma ReorderedUnits(src: seq<int>, cls: int -> int, o: Options, r: Ordered, first: Phase, second: Phase)
    requires Reorders(src, cls, o, r, first, second) && NonNegativeText(src)
    ensures NonNegativeText(r.text) && |r.text| <= |src| && (!o.removeMarkers ==> |r.text| == |src|)
  {
    hide Rendered, SinglePhase, DoublePhase;
    if |src| > 0 {
      if o.TwoPhases() {
        TwoPhaseUnits(o, src, cls, first, second, r);
      } else {
        OnePhaseUnits(o, src, cls, first, r);
      }
    }
  }

  method Reorder(src: seq<int>, cls: int -> int, o: Options) returns (r: Ordered, ghost first: Phase, ghost second: Phase)
    requires NonNegative(RawClasses(src, cls))
    ensures Reorders(src, cls, o, r, first, second)
  {
    hide NonNegative, RawClasses, Rendered, SinglePhase, DoublePhase;
    r, first, second := Order(src, cls, o);
  }

  /** The laid out text. Without shaping its length is that of the source always, with shaping unless markers are
      removed. */
  method LayOut(src: seq<int>, cls: int -> int, o: Options, shaping: Shaping)
    returns (out: seq<nat>, ghost r: Ordered, ghost first: Phase, ghost second: Phase)
    requires NonNegative(RawClasses(src, cls)) && NonNegativeText(src)
    ensures Reorders(src, cls, o, r, first, second) && NonNegativeText(r.text)
    ensures |r.text| <= |out| <= |src|
    ensures !o.removeMarkers || shaping.NoShaping? ==> |out| == |src|
    ensures shaping.NoShaping? ==> out[..|r.text|] == r.text
    ensures shaping.ToVisual? ==>
              var logical := ArabicShaping.InOrder(r.text, shaping.rtl);
              ArabicShaping.InOrder(out, shaping.rtl) ==
              ArabicPasses.Passed(ArabicShaping.ShapedText(logical, ArabicShaping.BeyondPlace(|r.text|, shaping.rtl)))
    ensures shaping.ToLogical? ==> out == ArabicDeshaping.Deshaped(r.text, shaping.rtl)
    ensures forall i :: |r.text| <= i < |out| ==> out[i] == ArabicTables.Space
  {
    hide NonNegative, RawClasses, Reorders, ArabicShaping.ShapedText, ArabicPasses.Passed, ArabicDeshaping.Deshaped,
         ArabicShaping.InOrder;
    var ordered;
    ordered, first, second := Reorder(src, cls, o);
    r := ordered;
    ReorderedUnits(src, cls, o, r, first, second);
    var shaped := ShapeUnits(ordered.text, shaping);
    if shaping.NoShaping? {
      out := Padded(shaped, |src|);
    } else {
      out := shaped;
      if shaping.ToVisual? {
        InOrderAgain(out, shaping.rtl);
      }
    }
  }
}
