/** What the characters of a reordered text are: mirrored partners and digit shapes, told from the class, the level
    and the type of the source character. */
module BidiShown {
  import opened BidiTables
  import opened BidiLevels
  import opened BidiReorder
  import opened BidiPasses
  import opened BidiMachine
  import opened BidiOrdering

  // ------------------------------------------------------------------ mirrored partners

  /** Opening and closing characters: parentheses, angle, square and curly brackets, guillemets, superscript and
      subscript parentheses, pointing angle brackets and the small forms. */
  predicate Partners(a: int, z: int)
  {
    || (a == 0x28 && z == 0x29) || (a == 0x3C && z == 0x3E) || (a == 0x5B && z == 0x5D) || (a == 0x7B && z == 0x7D)
    || (a == 0xAB && z == 0xBB) || (a == 0x207D && z == 0x207E) || (a == 0x208D && z == 0x208E)
    || (a == 0x2329 && z == 0x232A) || (a == 0xFE59 && z == 0xFE5A) || (a == 0xFE5B && z == 0xFE5C)
    || (a == 0xFE5D && z == 0xFE5E) || (a == 0xFE64 && z == 0xFE65)
  }

  /** y is shown for x in mirrored text. */
  predicate MirrorOf(y: int, x: int)
  {
    Partners(x, y) || Partners(y, x) || (y == x && !HasPartner(x))
  }

  predicate HasPartner(x: int)
  {
    || x in {0x28, 0x29, 0x3C, 0x3E, 0x5B, 0x5D, 0x7B, 0x7D, 0xAB, 0xBB}
    || x in {0x207D, 0x207E, 0x208D, 0x208E, 0x2329, 0x232A}
    || x in {0xFE59, 0xFE5A, 0xFE5B, 0xFE5C, 0xFE5D, 0xFE5E, 0xFE64, 0xFE65}
  }

  lemma PairAt(i: nat)
    requires i < |SYM_PAIRS|
    ensures HasPartner(SYM_PAIRS[i].0)
    ensures Partners(SYM_PAIRS[i].0, SYM_PAIRS[i].1) || Partners(SYM_PAIRS[i].1, SYM_PAIRS[i].0)
  {
    if i < 12 {
      assert i in {0, 1, 2, 3, 4, 5, 6, 7, 8, 9, 10, 11};
    } else {
      assert i in {12, 13, 14, 15, 16, 17, 18, 19, 20, 21, 22, 23};
    }
  }

  lemma PairFor(x: int) returns (i: nat)
    requires HasPartner(x)
    ensures i < |SYM_PAIRS| && SYM_PAIRS[i].0 == x
  {
    i := if x == 0x28 then 0 else if x == 0x29 then 1 else if x == 0x3C then 2 else if x == 0x3E then 3
         else if x == 0x5B then 4 else if x == 0x5D then 5 else if x == 0x7B then 6 else if x == 0x7D then 7
         else if x == 0xAB then 8 else if x == 0xBB then 9 else if x == 0x207D then 10 else if x == 0x207E then 11
         else if x == 0x208D then 12 else if x == 0x208E then 13 else if x == 0x2329 then 14
         else if x == 0x232A then 15 else if x == 0xFE59 then 16 else if x == 0xFE5A then 17
         else if x == 0xFE5B then 18 else if x == 0xFE5C then 19 else if x == 0xFE5D then 20
         else if x == 0xFE5E then 21 else if x == 0xFE64 then 22 else 23;
  }

  /** The search in the pairs shows exactly the partners. */
  lemma SymmetricMirrors(x: int)
    ensures MirrorOf(Symmetric(x), x)
  {
    var i := PairOf(SYM_PAIRS, x, 0);
    if i < |SYM_PAIRS| {
      PairAt(i);
    } else if HasPartner(x) {
      var j := PairFor(x);
      assert false;
    }
  }

  // ------------------------------------------------------------------ one character

  /** y is shown for character x of class k and final type t. */
  predicate Shown(y: int, x: int, k: int, t: int, mirrored: bool, numerals: Numerals)
  {
    && (k == N ==> if mirrored then MirrorOf(y, x) else y == x)
    && (k == EN && 0x30 <= x <= 0x39 ==>
          y == if numerals == National || (numerals == Contextual && t == AN) then 0x660 + (x - 0x30) else x)
    && (k == EN ==>
          y == if numerals == National || (numerals == Contextual && t == AN) then (x + 0x630) % 0x10000 else x)
    && (k == AN && 0x660 <= x <= 0x669 ==> y == if numerals == Nominal then 0x30 + (x - 0x660) else x)
    && (k == AN ==> y == if numerals == Nominal then (x - 0x630) % 0x10000 else x)
    && (k !in {N, EN, AN} ==> y == x)
  }

  lemma UnitShown(x: int, k: int, t: int, mirrored: bool, numerals: Numerals)
    requires 0 <= k
    ensures Shown(OutUnit(x, if mirrored && k == N then N_SWAP else k, t, numerals), x, k, t, mirrored, numerals)
  {
    SymmetricMirrors(x);
    hide Symmetric, MirrorOf;
  }

  // ------------------------------------------------------------------ whole texts

  lemma ClassOf(src: seq<int>, cls: int -> int, s: int)
    requires NonNegative(RawClasses(src, cls)) && 0 <= s < |src|
    ensures 0 <= RawClasses(src, cls)[s] == cls(src[s])
  {}

  /** One phase: neutrals at odd levels are mirrored when exactly one side of a text with a visual side swaps. */
  lemma ShownInOnePhase(src: seq<int>, cls: int -> int, o: Options, ph: Phase, r: Ordered, i: nat)
    requires NonNegative(RawClasses(src, cls))
    requires SinglePhase(o, Buffer(src, o), cls, ph)
    requires Rendered(o, Buffer(src, o), SingleLayout(o, Buffer(src, o), cls, ph), r)
    requires i < |r.text|
    ensures |r.dstToSrc| == |r.text| && 0 <= r.dstToSrc[i] < |src| == |ph.levels| == |ph.types|
    ensures var s := r.dstToSrc[i];
            var p := if o.visualIn && !o.visualOut && o.rtlIn != o.rtlOut then |src| - 1 - s else s;
            var mirrored := (o.visualIn || o.visualOut) && o.swapIn != o.swapOut && ph.levels[p] % 2 == 1;
            Shown(r.text[i], src[s], cls(src[s]), ph.types[p], mirrored, o.numerals)
  {
    hide ShownByLevels, MachineLevels, FirstTypes, TypesOk, TableOk, Symmetric, Shown, Injective, OutUnit, InverseOf,
         ChooseTable, CurrentLevel, RawClasses, Kept, NonNegative;
    var b := Buffer(src, o);
    var l := SingleLayout(o, b, cls, ph);
    var j := Places(Units(b, l, o.numerals), o.removeMarkers)[i];
    var p := l.full[j];
    assert r.text[i] == Units(b, l, o.numerals)[j] == OutUnit(b[p], l.marks[j], l.types[j], o.numerals);
    var s := r.dstToSrc[i];
    assert s == if o.InvertsInput() then |src| - 1 - p else p;
    assert b[p] == src[s];
    ClassOf(src, cls, s);
    assert l.marks[j] == Toggle(cls(src[s]), o.Symmetric() && ph.levels[p] % 2 == 1);
    UnitShown(src[s], cls(src[s]), ph.types[p], o.Symmetric() && ph.levels[p] % 2 == 1, o.numerals);
  }

  /** Two phases: mirrored once for the odd levels of a swapping source and once for those of a swapping
      destination. d is where the line between the phases holds the character. */
  lemma ShownInTwoPhases(src: seq<int>, cls: int -> int, o: Options, first: Phase, second: Phase, r: Ordered, i: nat)
    returns (d: nat)
    requires NonNegative(RawClasses(src, cls)) && o.TwoPhases()
    requires DoublePhase(o, src, cls, first, second)
    requires Rendered(o, src, DoubleLayout(o, src, cls, first, second), r)
    requires i < |r.text|
    ensures |r.dstToSrc| == |r.text| && 0 <= r.dstToSrc[i] < |src| == |first.levels|
    ensures d < |src| == |second.levels| == |second.types| == |first.order|
    ensures r.dstToSrc[i] == if o.rtlIn then first.order[d] else first.order[|src| - 1 - d]
    ensures var s := r.dstToSrc[i];
            var mirrored := (o.swapIn && first.levels[s] % 2 == 1) != (o.swapOut && second.levels[d] % 2 == 1);
            Shown(r.text[i], src[s], cls(src[s]), second.types[d], mirrored, o.numerals)
  {
    hide ShownByLevels, MachineLevels, FirstTypes, SecondTypes, TableOk, Symmetric, Shown, Injective, OutUnit,
         InverseOf, ChooseTable, CurrentLevel, RawClasses, Kept, NonNegative, TypesOk;
    var l := DoubleLayout(o, src, cls, first, second);
    var j := Places(Units(src, l, o.numerals), o.removeMarkers)[i];
    d := second.order[j];
    var s := l.full[j];
    assert s == Between(o, first)[d];
    assert r.text[i] == OutUnit(src[s], l.marks[j], l.types[j], o.numerals);
    assert r.dstToSrc[i] == s;
    ClassOf(src, cls, s);
    var once := Toggle(cls(src[s]), o.swapIn && first.levels[s] % 2 == 1);
    assert SecondMarks(o, src, cls, first)[d] == once;
    assert l.marks[j] == Toggle(once, o.swapOut && second.levels[d] % 2 == 1);
    UnitShown(src[s], cls(src[s]), second.types[d],
              (o.swapIn && first.levels[s] % 2 == 1) != (o.swapOut && second.levels[d] % 2 == 1), o.numerals);
  }
}
