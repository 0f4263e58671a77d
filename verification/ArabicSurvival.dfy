/** The round trip: which texts come back from shaping and deshaping as they were. */
module ArabicSurvival {

  import opened ArabicTables
  import opened ArabicShaping
  import opened ArabicMeaning
  import opened ArabicRoundTrip
  import opened ArabicPasses
  import opened ArabicDeshaping

  const Yeh: nat := 0x0649

  /** A reading as it comes back: the hamza of a yeh at the end of a word survives before a space only. */
  function ResolveAt(t: seq<nat>, q: nat): nat
    requires q < |t|
  {
    if t[q] == EndYeh && !(q + 1 < |t| && t[q + 1] == Space) then Yeh
    else if t[q] == Tail then Space
    else Plain(t[q])
  }

  function Resolve(t: seq<nat>): (r: seq<nat>)
    ensures |r| == |t|
  {
    seq(|t|, q requires 0 <= q < |t| => ResolveAt(t, q))
  }

  lemma ResolveFirst(v: nat, t: seq<nat>)
    ensures Resolve([v] + t) == [ResolveAt([v] + t, 0)] + Resolve(t)
  {
    var s := [v] + t;
    forall q | 0 <= q < |t| ensures ResolveAt(s, q + 1) == ResolveAt(t, q) {
      assert s[q + 1] == t[q];
      assert q + 1 < |t| ==> s[q + 2] == t[q + 1];
    }
  }

  lemma RestoredFirst(y: seq<nat>)
    requires y != []
    ensures Restored(y) == [RestoredAt(y, 0)] + Restored(y[1..])
  {
    forall p | 0 <= p < |y| - 1 ensures RestoredAt(y, p + 1) == RestoredAt(y[1..], p) {
      assert y[1..][p] == y[p + 1];
      assert p + 2 < |y| ==> y[1..][p + 1] == y[p + 2];
    }
  }

  /** Only a space reads as a space, and only a tail as a tail. */
  lemma UnitReads(y: nat)
    requires y < 0x10000
    ensures Unshaped(y) != []
    ensures Unshaped(y)[0] == Space <==> y == Space
    ensures Single(y) && !IsEndYeh(y) && y != HamzaForm ==>
              Base(y) != EndYeh && (Base(y) == Tail <==> y == Tail) && Base(y) < 0x10000
  {
    LettersAreLetters(y);
    hide Letter;
  }

  lemma LettersAreLetters(y: nat)
    ensures 0x0621 <= Letter(y) <= 0x065F
  {}

  lemma BareYehReads(y: nat)
    requires IsEndYeh(y)
    ensures Unshaped(BareYeh(y)) == [Yeh] && Unshaped(y) == [EndYeh] && Plain(EndYeh) == YehHamza && Plain(Yeh) == Yeh
  {}

  /** The letters of one unit as it comes back. */
  lemma UnitRestored(y: seq<nat>, t: seq<nat>)
    requires y != [] && y[0] < 0x10000 && y[0] != HamzaForm && Single(y[0])
    requires (|y| > 1 && y[1] == Space) <==> (t != [] && t[0] == Space)
    ensures Plains(Unshaped(RestoredAt(y, 0))) == [ResolveAt([Base(y[0])] + t, 0)]
  {
    var v := Base(y[0]);
    UnitReads(y[0]);
    hide Base, Letter;
    assert ([v] + t)[0] == v && (t != [] ==> ([v] + t)[1] == t[0]);
    if IsEndYeh(y[0]) {
      BareYehReads(y[0]);
    } else if y[0] == Tail {
      SpaceReads();
    }
  }

  lemma MeaningFirst(y: seq<nat>)
    requires y != []
    ensures Meaning(y) == Unshaped(y[0]) + Meaning(y[1..])
  {}

  /** What comes back reads as the reading resolves. */
  lemma {:induction false} RestoredReads(y: seq<nat>)
    requires Units(y) && HamzaForm !in y
    ensures Plains(Meaning(Restored(y))) == Resolve(Meaning(y))
  {
    if y == [] {
      NothingReads();
      assert Restored(y) == [];
    } else {
      var rest := y[1..];
      var t := Meaning(rest);
      RestoredReads(rest);
      MeaningFirst(y);
      RestoredFirst(y);
      RestReads(rest);
      hide Meaning, Restored, Resolve, Plains, Unshaped;
      var r := RestoredAt(y, 0);
      MeaningConcat([r], Restored(rest));
      MeaningOne(r);
      PlainsConcat(Unshaped(r), Meaning(Restored(rest)));
      if IsLigature(y[0]) {
        LigatureRestored(y, t);
      } else {
        SingleReads(y[0]);
        ResolveFirst(Base(y[0]), t);
        UnitRestored(y, t);
      }
    }
  }

  lemma SingleReads(y: nat)
    requires !IsLigature(y)
    ensures Unshaped(y) == [Base(y)]
  {}

  lemma NothingReads()
    ensures Meaning([]) == [] && Resolve([]) == [] && Plains([]) == []
  {}

  lemma RestReads(rest: seq<nat>)
    requires Units(rest)
    ensures (|rest| > 0 && rest[0] == Space) <==> (Meaning(rest) != [] && Meaning(rest)[0] == Space)
  {
    if rest != [] {
      UnitReads(rest[0]);
      MeaningFirst(rest);
    }
    hide Unshaped;
  }

  lemma LigatureRestored(y: seq<nat>, t: seq<nat>)
    requires y != [] && IsLigature(y[0])
    ensures RestoredAt(y, 0) == y[0]
    ensures Resolve(Unshaped(y[0]) + t) == Plains(Unshaped(y[0])) + Resolve(t)
  {
    var lam, alef := Lam, Merged(AlefOf(y[0]));
    assert Unshaped(y[0]) == [lam, alef];
    AlefsAreSmall(y[0]);
    hide AlefOf;
    ResolveFirst(alef, t);
    ResolveFirst(lam, [alef] + t);
    assert [lam] + ([alef] + t) == [lam, alef] + t;
  }

  lemma AlefsAreSmall(y: nat)
    requires IsLigature(y)
    ensures Ligature(AlefOf(y)) != 0 && AlefOf(y) < 0x10000
  {}

  // ------------------------------------------------------------------ the shaped text

  lemma {:induction false} InReading(y: seq<nat>, p: nat)
    requires p < |y|
    ensures Unshaped(y[p]) != [] && Unshaped(y[p])[0] in Meaning(y)
  {
    MeaningFirst(y);
    hide Unshaped, Meaning;
    UnshapedSome(y[p]);
    if p > 0 {
      InReading(y[1..], p - 1);
    }
  }

  lemma UnshapedSome(y: nat)
    ensures Unshaped(y) != []
  {}

  /** The elements of the ordered text are those of the text, the alefs of pairs merged. */
  lemma {:induction false} OrderedElements(s: seq<nat>)
    ensures forall v :: v in Ordered(s) ==> v in s || (v >= 0x20000 && Ligature(v - 0x20000) != 0)
    decreases |s|
  {
    if s != [] {
      OrderedUnfolds(s);
      PairIn(s);
      if Pair(s) {
        assert Ligature(s[Relevant(s, 1)]) != 0;
        OrderedElements(s[Relevant(s, 1) + 1..]);
      } else {
        OrderedElements(s[1..]);
      }
      hide Ordered, Relevant, Pair, Ligature;
    }
  }

  lemma {:induction false} TaggedElements(s: seq<nat>)
    ensures forall v :: v in Tagged(s) ==> v in s || v == EndYeh
  {
    hide Joins;
    if s != [] {
      TaggedElements(s[1..]);
    }
  }

  /** Only a space reads as a space at the end. */
  lemma {:induction false} TrailingSpaces(buf: seq<nat>, k: nat)
    requires Units(buf) && k <= |Meaning(buf)|
    requires forall i :: |Meaning(buf)| - k <= i < |Meaning(buf)| ==> Meaning(buf)[i] == Space
    ensures Padding(buf, k, true)
    decreases k
  {
    NothingReads();
    if k > 0 {
      hide Meaning;
      var front, y := buf[..|buf| - 1], buf[|buf| - 1];
      LastReads(buf);
      assert Meaning(buf)[|Meaning(buf)| - 1] == Space;
      assert y == Space && Meaning(buf) == Meaning(front) + [Space];
      forall i | |Meaning(front)| - (k - 1) <= i < |Meaning(front)| ensures Meaning(front)[i] == Space {
        assert Meaning(buf)[i] == Meaning(front)[i];
      }
      TrailingSpaces(front, k - 1);
    }
  }

  lemma LastReads(buf: seq<nat>)
    requires Units(buf) && buf != []
    ensures Meaning(buf) == Meaning(buf[..|buf| - 1]) + Unshaped(buf[|buf| - 1])
    ensures var u := Unshaped(buf[|buf| - 1]); u != [] && (u[|u| - 1] == Space ==> u == [Space] == [buf[|buf| - 1]])
  {
    hide Meaning, Unshaped;
    var front, y := buf[..|buf| - 1], buf[|buf| - 1];
    FrontAndLast(buf);
    MeaningConcat(front, [y]);
    MeaningOne(y);
    OnlySpace(y);
  }

  lemma FrontAndLast(buf: seq<nat>)
    requires buf != []
    ensures buf == buf[..|buf| - 1] + [buf[|buf| - 1]]
  {}

  lemma OnlySpace(y: nat)
    requires y < 0x10000
    ensures var u := Unshaped(y); u != [] && (u[|u| - 1] == Space ==> u == [Space] == [y])
  {
    LettersAreLetters(y);
    hide Letter;
  }

  /** The shaped text, its padding and its reading. */
  ghost predicate ShapedAs(y: seq<nat>, text: seq<nat>, k: nat)
  {
    && |y| == |text| && Units(y) && HamzaForm !in y && k == Ligatures(y) && Padding(y, k, true)
    && Meaning(y) == Ordered(Tagged(text)) + Spaces(k) && |Ordered(Tagged(text))| == |text|
  }

  lemma NominalUnits(text: seq<nat>)
    requires AllNominal(text)
    ensures Units(text) && HamzaForm !in text && EndYeh !in text && HamzaTag !in text
    ensures forall v :: v in text ==> v < 0x10000
  {}

  lemma ShapedFacts(text: seq<nat>, beyond: int)
    requires AllNominal(text)
    ensures ShapedAs(ShapedText(text, beyond), text, Ligatures(ShapedText(text, beyond)))
  {
    NominalUnits(text);
    hide AllNominal, ShapedText, Ordered, Tagged, Meaning;
    var y := ShapedText(text, beyond);
    ShapingKeepsText(text, beyond);
    var pad: nat :| Meaning(y) == Ordered(Tagged(text)) + Spaces(pad);
    ShapedLength(text, beyond);
    OrderedLength(Tagged(text));
    MeaningLength(y);
    assert pad == Ligatures(y);
    TrailingSpaces(y, pad);
    NoHamzaForm(y, text, pad);
  }

  lemma NoHamzaForm(y: seq<nat>, text: seq<nat>, k: nat)
    requires Meaning(y) == Ordered(Tagged(text)) + Spaces(k) && HamzaTag !in text
    ensures HamzaForm !in y
  {
    hide Ordered, Tagged, Meaning, Ligature;
    OrderedElements(Tagged(text));
    TaggedElements(text);
    HamzaReads();
    forall p | 0 <= p < |y| ensures y[p] != HamzaForm {
      InReading(y, p);
      hide Unshaped;
    }
  }

  lemma HamzaReads()
    ensures Unshaped(HamzaForm) == [HamzaTag] && HamzaTag != EndYeh && HamzaTag != Space && HamzaTag < 0x20000
  {}

  // ------------------------------------------------------------------ from visual to logical order

  /** The passed units in the order in which deshaping finds them: for right-to-left output as they are; for
      left-to-right output the padding stands at the beginning, except that a hamza in its first cell has become
      part of the Arabic text. */
  function Laid(z: seq<nat>, k: nat, rtl: bool): seq<nat>
    requires k <= |z|
  {
    var m := |z| - k;
    if rtl || k == 0 then z
    else if z[m] == HamzaForm then z[m + 1..] + z[..m + 1]
    else z[m + 1..] + [z[m]] + z[..m]
  }

  lemma {:induction false} LigaturesFit(buf: seq<nat>)
    ensures Ligatures(buf) <= |buf|
  {
    if buf != [] {
      LigaturesFit(buf[1..]);
    }
  }

  /** A text as it comes back. */
  function RoundTrip(text: seq<nat>, beyond: int, rtl: bool): seq<nat>
  {
    var y := ShapedText(text, beyond);
    LigaturesFit(y);
    Deshaped(Laid(Passed(y), Ligatures(y), rtl), rtl)
  }

  /** The ordered text resolved; k is the number of its pairs. */
  function Back(text: seq<nat>, k: nat): (r: seq<nat>)
    ensures |r| == |text|
  {
    OrderedLength(Tagged(text));
    Resolve(Ordered(Tagged(text)) + Spaces(k))[..|text|]
  }

  lemma ResolveSpaces(t: seq<nat>, k: nat)
    ensures Resolve(t + Spaces(k)) == Resolve(t + Spaces(k))[..|t|] + Spaces(k)
  {
    var s := t + Spaces(k);
    SpaceReads();
    forall q | |t| <= q < |s| ensures Resolve(s)[q] == Space {
      assert s[q] == Space && ResolveAt(s, q) == Space;
    }
  }

  /** What comes back has as many ligatures, and its padding is spaces. */
  lemma {:induction false} RestoredLigatures(y: seq<nat>)
    ensures Ligatures(Restored(y)) == Ligatures(y)
  {
    if y == [] {
      assert Restored(y) == [];
    } else {
      RestoredFirst(y);
      RestoredLigatures(y[1..]);
      SameKind(y);
      hide Restored;
      assert Restored(y)[0] == RestoredAt(y, 0) && Restored(y)[1..] == Restored(y[1..]);
    }
  }

  lemma SameKind(y: seq<nat>)
    requires y != []
    ensures IsLigature(RestoredAt(y, 0)) <==> IsLigature(y[0])
  {}

  lemma RestoredPadding(y: seq<nat>, k: nat)
    requires Units(y) && Padding(y, k, true)
    ensures Units(Restored(y)) && Padding(Restored(y), k, true)
  {
    forall p | 0 <= p < |y| ensures Restored(y)[p] < 0x10000 && (y[p] == Space ==> Restored(y)[p] == Space) {
      assert Restored(y)[p] == RestoredAt(y, p);
    }
  }

  /** With its spaces in place, what comes back expands to the resolved text. */
  lemma ExpandsBack(y: seq<nat>, text: seq<nat>, k: nat)
    requires ShapedAs(y, text, k)
    ensures UnitLetters(ExpandFrom(Restored(y), 0, true)) == Back(text, k)
  {
    RestoredReads(y);
    RestoredLigatures(y);
    RestoredPadding(y, k);
    var r := Restored(y);
    assert r[..0] == [] && r[0..] == r;
    ExpandKeeps(r, 0, true);
    var e := ExpandFrom(r, 0, true);
    PlainUnits(e);
    hide Meaning, Resolve, Plains, UnitLetters, Ordered, Tagged, ExpandFrom, Restored;
    var t := Ordered(Tagged(text));
    ResolveSpaces(t, k);
    SamePadding(UnitLetters(e), Back(text, k), k);
  }

  lemma SamePadding(a: seq<nat>, b: seq<nat>, k: nat)
    requires a + Spaces(k) == b + Spaces(k)
    ensures a == b
  {
    assert |a| == |b|;
    assert a == (a + Spaces(k))[..|a|];
    assert b == (b + Spaces(k))[..|a|];
  }

  /** Right to left: deshaping gives the ordered text, resolved. */
  lemma RightToLeftBack(text: seq<nat>, beyond: int)
    requires AllNominal(text)
    ensures RoundTrip(text, beyond, true) == Back(text, Ligatures(ShapedText(text, beyond)))
  {
    ShapedFacts(text, beyond);
    var y := ShapedText(text, beyond);
    hide ShapedText, Back, Passed, ExpandFrom, UnitLetters, UnSeen, UnYeh, Restored;
    UndonePasses(y, |y|);
    assert Passed(y)[..|y|] == Passed(y) && Restored(y)[..|y|] == Restored(y);
    ExpandsBack(y, text, Ligatures(y));
  }

  // ------------------------------------------------------------------ left to right

  lemma UnYehAfterSpaces(k: nat, w: seq<nat>)
    ensures UnYeh(Spaces(k) + w) == Spaces(k) + UnYeh(w)
  {
    var z := Spaces(k) + w;
    forall p | 0 <= p < |z| ensures UnYehAt(z, p) == (Spaces(k) + UnYeh(w))[p] {
      if p >= k {
        assert z[p] == w[p - k];
        assert p > k ==> z[p - 1] == w[p - k - 1];
        assert p + 1 < |z| ==> z[p + 1] == w[p + 1 - k];
        assert UnYeh(w)[p - k] == UnYehAt(w, p - k);
      }
    }
  }

  /** The cells of the padding after the passes: spaces, except that the first may hold a tail or a hamza. */
  lemma PassedPadding(y: seq<nat>, k: nat)
    requires HamzaForm !in y && Padding(y, k, true)
    ensures var z, m := Passed(y), |y| - k;
            && (forall p :: m < p < |z| ==> z[p] == Space)
            && (k > 0 ==> z[m] == Space || z[m] == Tail || z[m] == HamzaForm)
            && (k > 0 && z[m] == HamzaForm ==> m > 0 && IsEndYeh(y[m - 1]))
            && (k > 0 && m > 0 && IsEndYeh(y[m - 1]) ==> z[m] == HamzaForm)
  {
    var m := |y| - k;
    forall p | m <= p < |y|
      ensures p > m ==> Passed(y)[p] == Space
      ensures p == m ==> Passed(y)[p] == (if p > 0 && IsEndYeh(y[p - 1]) then HamzaForm
                                          else if p > 0 && IsSeen(y[p - 1]) then Tail else Space)
    {
      PassedAt(y, p);
      assert y[p] == Space;
      assert p > m ==> y[p - 1] == Space;
    }
    hide Passed;
  }

  /** The Arabic text ends in a yeh whose hamza stands in the padding. */
  ghost predicate HamzaInPadding(y: seq<nat>, k: nat)
  {
    0 < k < |y| && IsEndYeh(y[|y| - k - 1])
  }

  /** Undoing the passes on the laid units: the padding in front, then what comes back. */
  lemma LaidUndone(y: seq<nat>, k: nat)
    requires HamzaForm !in y && Padding(y, k, true) && !HamzaInPadding(y, k)
    ensures UnYeh(UnSeen(Laid(Passed(y), k, false))) == Spaces(k) + Restored(y)[..|y| - k]
  {
    var z, m := Passed(y), |y| - k;
    PassedPadding(y, k);
    UndonePasses(y, m);
    if k == 0 {
      hide Passed, UnYeh, UnSeen, Restored;
      assert z[..m] == z;
      assert Spaces(0) + Restored(y)[..m] == Restored(y)[..m];
    } else {
      UnSeenLaid(z, m, k);
      hide Passed, UnYeh, UnSeen, Restored;
      UnYehAfterSpaces(k, UnSeen(z[..m]));
    }
  }

  lemma UnSeenLaid(z: seq<nat>, m: nat, k: nat)
    requires k > 0 && m + k == |z| && (forall p :: m < p < |z| ==> z[p] == Space)
    requires z[m] == Space || z[m] == Tail
    ensures UnSeen(Laid(z, k, false)) == Spaces(k) + UnSeen(z[..m])
  {
    var l := Laid(z, k, false);
    assert l == z[m + 1..] + [z[m]] + z[..m];
    assert |l| == |z|;
  }

  /** With the spaces in front, what comes back expands to the same text. */
  lemma ExpandsBackFromFront(y: seq<nat>, text: seq<nat>, k: nat)
    requires ShapedAs(y, text, k)
    ensures UnitLetters(ExpandFrom(Spaces(k) + Restored(y)[..|y| - k], 0, false)) == Back(text, k)
  {
    RestoredReads(y);
    RestoredLigatures(y);
    RestoredPadding(y, k);
    var m := |y| - k;
    var w := Restored(y)[..m];
    var z := Spaces(k) + w;
    assert Restored(y) == w + Spaces(k);
    LigaturesConcat(w, Spaces(k));
    LigaturesConcat(Spaces(k), w);
    NoneInSpaces(k);
    assert z[..0] == [] && z[0..] == z;
    ExpandKeeps(z, 0, false);
    var e := ExpandFrom(z, 0, false);
    PlainUnits(e);
    SpacesRead(k);
    hide Meaning, Resolve, Plains, UnitLetters, Ordered, Tagged, ExpandFrom, Restored, Units, Padding;
    MeaningConcat(w, Spaces(k));
    MeaningConcat(Spaces(k), w);
    PlainsConcat(Meaning(w), Spaces(k));
    PlainsConcat(Spaces(k), Meaning(w));
    SameFront(UnitLetters(e), Plains(Meaning(w)), k);
    ResolveSpaces(Ordered(Tagged(text)), k);
    SamePadding(UnitLetters(e), Back(text, k), k);
  }

  lemma SameFront(a: seq<nat>, b: seq<nat>, k: nat)
    requires Spaces(k) + a == Spaces(k) + b
    ensures a == b
  {
    assert a == (Spaces(k) + a)[k..];
    assert b == (Spaces(k) + b)[k..];
  }

  lemma {:induction false} NoneInSpaces(k: nat)
    ensures Ligatures(Spaces(k)) == 0
  {
    if k > 0 {
      assert Spaces(k)[1..] == Spaces(k - 1);
      NoneInSpaces(k - 1);
    }
  }

  lemma {:induction false} SpacesRead(k: nat)
    ensures Meaning(Spaces(k)) == Spaces(k) && Plains(Spaces(k)) == Spaces(k)
  {
    SpaceReads();
    if k > 0 {
      SpacesRead(k - 1);
      MeaningFirst(Spaces(k));
      hide Meaning, Unshaped;
      assert Spaces(k)[1..] == Spaces(k - 1) && Spaces(k) == [Space] + Spaces(k - 1);
    }
  }

  /** Left to right: the same, unless the hamza of the last letter stands in the padding. */
  lemma LeftToRightBack(text: seq<nat>, beyond: int)
    requires AllNominal(text)
    requires var y := ShapedText(text, beyond); !HamzaInPadding(y, Ligatures(y))
    ensures RoundTrip(text, beyond, false) == Back(text, Ligatures(ShapedText(text, beyond)))
  {
    ShapedFacts(text, beyond);
    var y := ShapedText(text, beyond);
    LigaturesFit(y);
    hide ShapedText, Back, Passed, ExpandFrom, UnitLetters, UnSeen, UnYeh, Restored, Laid, HamzaInPadding;
    LaidUndone(y, Ligatures(y));
    ExpandsBackFromFront(y, text, Ligatures(y));
  }

  /** Expanding from the front leaves a last space where it is. */
  lemma {:induction false} LastSpaceStays(buf: seq<nat>, count: nat)
    requires count <= |buf| && buf != [] && buf[|buf| - 1] == Space
    ensures ExpandFrom(buf, count, false)[|buf| - 1] == Space
    decreases |buf| - count
  {
    if count < |buf| {
      if IsLigature(buf[count]) && buf[0] == Space {
        LastSpaceStays(Expand(buf, count, false), count + 1);
      } else {
        LastSpaceStays(buf, count + 1);
      }
    }
  }

  /** In that case the text comes back with a space at its end. */
  lemma HamzaEndsInSpace(text: seq<nat>, beyond: int)
    requires AllNominal(text)
    requires var y := ShapedText(text, beyond); HamzaInPadding(y, Ligatures(y))
    ensures var r := RoundTrip(text, beyond, false); |r| == |text| > 0 && r[|r| - 1] == Space
  {
    hide ShapedText, Passed, Laid, HamzaInPadding, UnYeh, UnSeen, ExpandFrom, Meaning, Ordered, Tagged;
    ShapedFacts(text, beyond);
    var y := ShapedText(text, beyond);
    var k := Ligatures(y);
    LigaturesFit(y);
    var l := HamzaLaid(y, k);
    hide ShapedAs;
    LastHamza(l);
    var u := UnYeh(UnSeen(l));
    LastSpaceStays(u, 0);
    LastLetter(ExpandFrom(u, 0, false));
  }

  lemma LastLetter(e: seq<nat>)
    requires e != [] && e[|e| - 1] == Space
    ensures UnitLetters(e)[|e| - 1] == Space
  {
    SpaceLetter();
  }

  /** The hamza in the padding comes last. */
  lemma HamzaLaid(y: seq<nat>, k: nat) returns (l: seq<nat>)
    requires HamzaForm !in y && Padding(y, k, true) && HamzaInPadding(y, k)
    ensures l == Laid(Passed(y), k, false) && |l| == |y| > 1 && l[|l| - 1] == HamzaForm && IsBareYeh(l[|l| - 2])
  {
    var m := |y| - k;
    PassedPadding(y, k);
    PassedAt(y, m - 1);
    EndYehIsUnit(y[m - 1]);
    hide Passed;
    var z := Passed(y);
    l := Laid(z, k, false);
    assert l == z[m + 1..] + z[..m + 1];
  }

  lemma EndYehIsUnit(y: nat)
    requires IsEndYeh(y)
    ensures y != Space && IsBareYeh(BareYeh(y))
  {}

  lemma SpaceLetter()
    ensures UnitLetter(Space) == Space
  {}

  lemma LastHamza(l: seq<nat>)
    requires |l| > 1 && l[|l| - 1] == HamzaForm && IsBareYeh(l[|l| - 2])
    ensures UnYeh(UnSeen(l))[|l| - 1] == Space
  {
    var u := UnSeen(l);
    assert u[|l| - 1] == HamzaForm && u[|l| - 2] == l[|l| - 2];
    assert UnYeh(u)[|l| - 1] == UnYehAt(u, |l| - 1);
  }

  // ------------------------------------------------------------------ marks inside pairs

  /** A mark stands between a lam and its alef. */
  predicate MarkInPair(s: seq<nat>) { Pair(s) && Relevant(s, 1) > 1 }

  predicate NoMarkInPair(s: seq<nat>) { forall i :: 0 <= i < |s| ==> !MarkInPair(s[i..]) }

  predicate HasPair(s: seq<nat>) { exists i :: 0 <= i < |s| && Pair(s[i..]) }

  lemma TagKinds(v: nat, w: nat)
    requires w == v || (v == YehHamza && w == EndYeh)
    ensures (IrrelevantUnit(w) <==> IrrelevantUnit(v)) && Ligature(w) == Ligature(v) && (w == Lam <==> v == Lam)
  {}

  lemma TaggedKinds(s: seq<nat>, i: nat)
    requires i < |s|
    ensures var v, w := s[i], Tagged(s)[i];
            (IrrelevantUnit(w) <==> IrrelevantUnit(v)) && Ligature(w) == Ligature(v) && (w == Lam <==> v == Lam)
  {
    TaggedAt(s, i);
    hide Tagged, Joins;
    TagKinds(s[i], Tagged(s)[i]);
  }

  lemma PairTagged(s: seq<nat>)
    requires s != []
    ensures Relevant(Tagged(s), 1) == Relevant(s, 1)
    ensures (Pair(Tagged(s)) <==> Pair(s)) && (MarkInPair(Tagged(s)) <==> MarkInPair(s))
  {
    hide Tagged, Ligature, IrrelevantUnit;
    forall i | 0 <= i < |s|
      ensures IrrelevantUnit(Tagged(s)[i]) <==> IrrelevantUnit(s[i])
      ensures Ligature(Tagged(s)[i]) == Ligature(s[i]) && (Tagged(s)[i] == Lam <==> s[i] == Lam)
    {
      TaggedKinds(s, i);
    }
    RelevantUnique(Tagged(s), 1, Relevant(s, 1));
  }

  lemma PairsTagged(s: seq<nat>)
    ensures NoMarkInPair(Tagged(s)) <==> NoMarkInPair(s)
    ensures HasPair(Tagged(s)) <==> HasPair(s)
  {
    hide Tagged, Pair, MarkInPair;
    forall i | 0 <= i < |s|
      ensures (Pair(Tagged(s)[i..]) <==> Pair(s[i..])) && (MarkInPair(Tagged(s)[i..]) <==> MarkInPair(s[i..]))
    {
      TaggedAt(s, i);
      PairTagged(s[i..]);
    }
  }

  lemma SuffixMarks(s: seq<nat>)
    requires s != []
    ensures NoMarkInPair(s) <==> !MarkInPair(s) && NoMarkInPair(s[1..])
    ensures HasPair(s) <==> Pair(s) || HasPair(s[1..])
  {
    hide MarkInPair, Pair;
    assert s[0..] == s;
    assert forall i :: 1 <= i < |s| ==> s[1..][i - 1..] == s[i..];
    forall i | 0 <= i < |s| - 1 ensures s[1..][i..] == s[i + 1..] {}
    if HasPair(s[1..]) {
      var i :| 0 <= i < |s| - 1 && Pair(s[1..][i..]);
      assert Pair(s[i + 1..]);
    }
    if NoMarkInPair(s) {
      forall i | 0 <= i < |s| - 1 ensures !MarkInPair(s[1..][i..]) {
        assert !MarkInPair(s[i + 1..]);
      }
    }
  }

  predicate Kind(o: nat, v: nat) { o == v || (o == Merged(v) && Ligature(v) != 0) }

  /** Without marks inside pairs the order is the text's own, the alefs of pairs merged. */
  lemma {:induction false} OrderedKinds(s: seq<nat>)
    requires NoMarkInPair(s)
    ensures |Ordered(s)| == |s| && forall i :: 0 <= i < |s| ==> Kind(Ordered(s)[i], s[i])
    decreases |s|
  {
    if s != [] {
      SuffixMarks(s);
      OrderedUnfolds(s);
      PairIn(s);
      OrderedLength(s);
      hide Ordered, NoMarkInPair, Relevant;
      if Pair(s) {
        SuffixMarks(s[1..]);
        assert s[1..][1..] == s[2..];
        OrderedKinds(s[2..]);
        assert s[1..1] == [];
        KindsAfter(s, 2, Ordered(s), Ordered(s[2..]));
      } else {
        OrderedKinds(s[1..]);
        KindsAfter(s, 1, Ordered(s), Ordered(s[1..]));
      }
    }
  }

  lemma KindsAfter(s: seq<nat>, n: nat, o: seq<nat>, rest: seq<nat>)
    requires n <= |s| == |o| && o[n..] == rest && |rest| == |s| - n
    requires forall i :: 0 <= i < n ==> Kind(o[i], s[i])
    requires forall i :: 0 <= i < |rest| ==> Kind(rest[i], s[n..][i])
    ensures forall i :: 0 <= i < |s| ==> Kind(o[i], s[i])
  {
    hide Kind;
    forall i | n <= i < |s| ensures Kind(o[i], s[i]) {
      assert o[i] == rest[i - n] && s[i] == s[n..][i - n];
    }
  }

  predicate MovedAt(s: seq<nat>, q: nat)
  {
    q < |s| == |Ordered(s)| && IrrelevantUnit(s[q])
    && Ordered(s)[q] >= 0x20000 && Ligature(Ordered(s)[q] - 0x20000) != 0
  }

  lemma MovedLater(s: seq<nat>, n: nat, q: nat)
    requires n <= |s| && |Ordered(s)| == |s| && Ordered(s)[n..] == Ordered(s[n..]) && MovedAt(s[n..], q)
    ensures MovedAt(s, n + q)
  {
    hide Ordered, Ligature, IrrelevantUnit;
    assert s[n..][q] == s[n + q] && Ordered(s)[n..][q] == Ordered(s)[n + q];
  }

  lemma MovedFirst(s: seq<nat>)
    requires MarkInPair(s)
    ensures MovedAt(s, 1)
  {
    OrderedUnfolds(s);
    OrderedLength(s);
    hide Ordered;
  }

  /** Past its first letter, or its first pair without marks, the order is that of the rest. */
  lemma OrderedRest(s: seq<nat>)
    requires s != [] && !MarkInPair(s)
    ensures var n := if Pair(s) then 2 else 1; n <= |s| == |Ordered(s)| && Ordered(s)[n..] == Ordered(s[n..])
  {
    OrderedUnfolds(s);
    OrderedLength(s);
    PairIn(s);
    hide Ordered, Relevant;
    if Pair(s) {
      assert s[1..1] == [];
    }
  }

  /** With a mark inside a pair, some mark gives its place to an alef. */
  lemma {:induction false} OrderedMoves(s: seq<nat>) returns (q: nat)
    requires !NoMarkInPair(s)
    ensures MovedAt(s, q)
    decreases |s|
  {
    hide Ordered, NoMarkInPair, Pair, MarkInPair, MovedAt, Relevant;
    SomeMark(s);
    SuffixMarks(s);
    if MarkInPair(s) {
      MovedFirst(s);
      q := 1;
    } else {
      OrderedRest(s);
      if Pair(s) {
        NoLamNoPair(s);
        SuffixMarks(s[1..]);
        assert s[1..][1..] == s[2..];
        var r := OrderedMoves(s[2..]);
        MovedLater(s, 2, r);
        q := 2 + r;
      } else {
        var r := OrderedMoves(s[1..]);
        MovedLater(s, 1, r);
        q := 1 + r;
      }
    }
  }

  lemma SomeMark(s: seq<nat>)
    requires !NoMarkInPair(s)
    ensures s != []
  {}

  /** After a pair without marks comes no pair that starts with its alef. */
  lemma NoLamNoPair(s: seq<nat>)
    requires Pair(s) && !MarkInPair(s)
    ensures |s| > 1 && !Pair(s[1..]) && !MarkInPair(s[1..])
  {}

  predicate Below(s: seq<nat>) { forall i :: 0 <= i < |s| ==> s[i] < 0x20000 }

  predicate HasMerged(t: seq<nat>) { exists i :: 0 <= i < |t| && t[i] >= 0x20000 }

  lemma MergedConcat(a: seq<nat>, b: seq<nat>)
    ensures HasMerged(a + b) <==> HasMerged(a) || HasMerged(b)
  {
    if HasMerged(a) {
      var i :| 0 <= i < |a| && a[i] >= 0x20000;
      assert (a + b)[i] >= 0x20000;
    }
    if HasMerged(b) {
      var i :| 0 <= i < |b| && b[i] >= 0x20000;
      assert (a + b)[|a| + i] >= 0x20000;
    }
  }

  lemma {:induction false} OrderedMerged(s: seq<nat>)
    requires Below(s)
    ensures HasMerged(Ordered(s)) <==> HasPair(s)
    decreases |s|
  {
    if s == [] {
      assert Ordered(s) == [];
    } else {
      SuffixMarks(s);
      OrderedUnfolds(s);
      PairIn(s);
      hide Ordered, HasPair, Relevant, Pair;
      if Pair(s) {
        assert Ordered(s)[1] >= 0x20000;
      } else {
        OrderedMerged(s[1..]);
        MergedConcat([s[0]], Ordered(s[1..]));
        assert !HasMerged([s[0]]);
      }
    }
  }

  lemma {:induction false} LigaturesMerged(y: seq<nat>)
    requires Units(y)
    ensures HasMerged(Meaning(y)) <==> Ligatures(y) > 0
  {
    if y != [] {
      MeaningFirst(y);
      LigaturesMerged(y[1..]);
      UnitMerged(y[0]);
      hide Unshaped, Meaning, IsLigature, HasMerged;
      MergedConcat(Unshaped(y[0]), Meaning(y[1..]));
    }
  }

  lemma UnitMerged(y: nat)
    requires y < 0x10000
    ensures HasMerged(Unshaped(y)) <==> IsLigature(y)
  {
    LettersAreLetters(y);
    hide Letter;
    if IsLigature(y) {
      assert Unshaped(y)[1] >= 0x20000;
    }
  }

  lemma {:induction false} OrderedLast(s: seq<nat>)
    requires s != [] && Below(s)
    ensures |Ordered(s)| == |s| && (Ordered(s)[|s| - 1] == EndYeh <==> s[|s| - 1] == EndYeh)
    decreases |s|, 2
  {
    OrderedLength(s);
    if Pair(s) {
      LastOfPair(s);
    } else {
      OrderedUnfolds(s);
      hide Ordered, Pair;
      if |s| > 1 {
        OrderedLast(s[1..]);
      }
    }
  }

  lemma LastOfPair(s: seq<nat>)
    requires Pair(s) && Below(s) && |Ordered(s)| == |s|
    ensures Ordered(s)[|s| - 1] == EndYeh <==> s[|s| - 1] == EndYeh
    decreases |s|, 1
  {
    var a := Relevant(s, 1);
    OrderedUnfolds(s);
    PairLast(s, a);
    if a + 1 < |s| {
      LaterLast(s, a);
    }
  }

  lemma LaterLast(s: seq<nat>, a: nat)
    requires s != [] && Below(s) && 1 <= a && a + 1 < |s| == |Ordered(s)|
    requires Ordered(s) == [Lam, Merged(s[a])] + s[1..a] + Ordered(s[a + 1..])
    ensures Ordered(s)[|s| - 1] == EndYeh <==> s[|s| - 1] == EndYeh
    decreases |s|, 0
  {
    hide Ordered;
    OrderedLast(s[a + 1..]);
  }

  lemma PairLast(s: seq<nat>, a: nat)
    requires Pair(s) && a == Relevant(s, 1) && Below(s)
    ensures 1 <= a < |s| && s[a] != EndYeh && Merged(s[a]) != EndYeh && forall i :: 1 <= i < a ==> s[i] != EndYeh
  {
    TagFacts([EndYeh]);
    forall i | 1 <= i < a ensures s[i] != EndYeh {
      assert IrrelevantUnit(s[i]);
    }
  }

  // ------------------------------------------------------------------ which texts survive

  /** A yeh with hamza keeps its hamza: it joins to the next letter, or a space follows it, or for right-to-left
      output it comes last and a lam-alef pair has left a space at the end. */
  predicate HamzaKept(text: seq<nat>, i: nat, rtl: bool)
    requires i < |text|
  {
    || Joins(text[i..]) || (i + 1 < |text| && text[i + 1] == Space)
    || (i + 1 == |text| && rtl && HasPair(text))
  }

  predicate Survives(text: seq<nat>, rtl: bool)
  {
    && NoMarkInPair(text) && Tail !in text
    && forall i :: 0 <= i < |text| && text[i] == YehHamza ==> HamzaKept(text, i, rtl)
  }

  /** One unit of the ordered text, resolved. */
  lemma BackAt(text: seq<nat>, k: nat, i: nat)
    requires AllNominal(text) && NoMarkInPair(text) && i < |text|
    ensures Back(text, k)[i] == text[i] <==>
            text[i] != Tail
            && (text[i] == YehHamza ==> Joins(text[i..]) || (i + 1 < |text| && text[i + 1] == Space) ||
                                        (i + 1 == |text| && k > 0))
  {
    PairsTagged(text);
    OrderedKinds(Tagged(text));
    TaggedAt(text, i);
    if i + 1 < |text| {
      TaggedAt(text, i + 1);
    }
    NominalUnits(text);
    hide Ordered, Tagged, Joins, NoMarkInPair, HasPair;
    var o := Ordered(Tagged(text));
    var t := o + Spaces(k);
    assert Back(text, k)[i] == ResolveAt(t, i) by {
      assert Resolve(t)[i] == ResolveAt(t, i);
    }
    assert t[i] == o[i] && Kind(o[i], Tagged(text)[i]);
    if i + 1 < |text| {
      assert t[i + 1] == o[i + 1] && Kind(o[i + 1], Tagged(text)[i + 1]);
      NextIsSpace(o[i + 1], Tagged(text)[i + 1], text[i + 1]);
    } else if k > 0 {
      assert t[i + 1] == Space;
    }
    ResolveKind(t, i, Tagged(text)[i], text[i]);
  }

  lemma NextIsSpace(o: nat, v: nat, x: nat)
    requires Kind(o, v) && (v == x || (x == YehHamza && v == EndYeh)) && x < 0x10000
    ensures o == Space <==> x == Space
  {}

  lemma ResolveKind(t: seq<nat>, i: nat, v: nat, x: nat)
    requires i < |t| && Kind(t[i], v) && (v == x || (x == YehHamza && v == EndYeh)) && x < 0x10000
    ensures ResolveAt(t, i) == x <==>
            x != Tail && (v == EndYeh ==> i + 1 < |t| && t[i + 1] == Space)
  {}

  /** With a mark inside a pair the text does not come back. */
  lemma MarkedNotBack(text: seq<nat>, k: nat)
    requires AllNominal(text) && !NoMarkInPair(text)
    ensures Back(text, k) != text
  {
    hide Tagged, NoMarkInPair, HasPair;
    PairsTagged(text);
    var q := OrderedMoves(Tagged(text));
    TaggedKinds(text, q);
    MarkTag(text, q);
    hide Ordered, Ligature, IrrelevantUnit, Plain;
    var t := Ordered(Tagged(text)) + Spaces(k);
    assert t[q] == Ordered(Tagged(text))[q];
    MarkIsNoAlef(text[q], t[q]);
    assert Resolve(t)[q] == ResolveAt(t, q);
  }

  lemma MarkTag(text: seq<nat>, q: nat)
    requires q < |text| && IrrelevantUnit(Tagged(text)[q])
    ensures IrrelevantUnit(text[q])
  {
    TaggedKinds(text, q);
  }

  lemma MarkIsNoAlef(x: nat, o: nat)
    requires IrrelevantUnit(x) && o >= 0x20000 && Ligature(o - 0x20000) != 0
    ensures Plain(o) != x && o != EndYeh && o != Tail
  {}

  /** The padding tells whether there was a pair. */
  lemma PaddingTellsPair(text: seq<nat>, y: seq<nat>, k: nat)
    requires AllNominal(text) && ShapedAs(y, text, k)
    ensures k > 0 <==> HasPair(text)
  {
    TaggedBelow(text);
    LigaturesMerged(y);
    OrderedMerged(Tagged(text));
    PairsTagged(text);
    hide Ordered, Tagged, Meaning, HasPair, NoMarkInPair;
    MergedConcat(Ordered(Tagged(text)), Spaces(k));
    assert !HasMerged(Spaces(k));
  }

  lemma TaggedBelow(text: seq<nat>)
    requires AllNominal(text)
    ensures Below(Tagged(text))
  {
    hide Joins, Tagged;
    forall i | 0 <= i < |text| ensures Tagged(text)[i] < 0x20000 {
      TaggedAt(text, i);
    }
  }

  /** The last letter: a hamza stands in the padding exactly when the text has a pair and ends in a yeh with
      hamza. */
  lemma PaddingTellsHamza(text: seq<nat>, y: seq<nat>, k: nat)
    requires AllNominal(text) && ShapedAs(y, text, k)
    ensures HamzaInPadding(y, k) <==> k > 0 && text != [] && text[|text| - 1] == YehHamza
  {
    if text != [] && k > 0 {
      var n := |text|;
      NominalUnits(text);
      TaggedBelow(text);
      OrderedLast(Tagged(text));
      TaggedAt(text, n - 1);
      LastJoinsNothing(text);
      ReadingBeforePadding(y, text, k);
      hide Ordered, Tagged, Meaning;
    }
  }

  lemma LastJoinsNothing(text: seq<nat>)
    requires text != []
    ensures !Joins(text[|text| - 1..])
  {}

  /** The unit before the padding reads as the last letter of the ordered text. */
  lemma ReadingBeforePadding(y: seq<nat>, text: seq<nat>, k: nat)
    requires ShapedAs(y, text, k) && text != [] && k > 0
    ensures k < |y|
    ensures var o := Ordered(Tagged(text)); IsEndYeh(y[|y| - k - 1]) <==> o[|o| - 1] == EndYeh
  {
    hide Ordered, Tagged, Meaning;
    ReadingOfFront(y, Ordered(Tagged(text)), k);
    FrontNotEmpty(y[..|y| - k]);
    LastOfReading(y[..|y| - k]);
  }

  lemma FrontNotEmpty(w: seq<nat>)
    requires Meaning(w) != []
    ensures w != []
  {
    NothingReads();
  }

  lemma ReadingOfFront(y: seq<nat>, o: seq<nat>, k: nat)
    requires Padding(y, k, true) && Meaning(y) == o + Spaces(k)
    ensures Meaning(y[..|y| - k]) == o
  {
    hide Meaning;
    var w := y[..|y| - k];
    assert y == w + Spaces(k);
    MeaningConcat(w, Spaces(k));
    SpacesRead(k);
    SamePadding(Meaning(w), o, k);
  }

  lemma LastOfReading(w: seq<nat>)
    requires Units(w) && w != []
    ensures Meaning(w) != []
    ensures IsEndYeh(w[|w| - 1]) <==> Meaning(w)[|Meaning(w)| - 1] == EndYeh
  {
    hide Meaning;
    LastReads(w);
    LastUnitReads(w[|w| - 1]);
    hide Unshaped;
  }

  lemma LastUnitReads(y: nat)
    requires y < 0x10000
    ensures var u := Unshaped(y); u != [] && (IsEndYeh(y) <==> u[|u| - 1] == EndYeh)
  {
    LettersAreLetters(y);
    hide Letter;
  }

  /** Exactly these nominal texts come back from shaping and deshaping as they were: no mark inside a lam-alef
      pair, no tail character, and every yeh with hamza keeps its hamza. */
  lemma SurvivesIff(text: seq<nat>, beyond: int, rtl: bool)
    requires AllNominal(text)
    ensures RoundTrip(text, beyond, rtl) == text <==> Survives(text, rtl)
  {
    ShapedFacts(text, beyond);
    var y := ShapedText(text, beyond);
    var k := Ligatures(y);
    PaddingTellsPair(text, y, k);
    PaddingTellsHamza(text, y, k);
    hide ShapedAs, ShapedText, HasPair, Joins, RoundTrip, Back, AllNominal;
    if !rtl && HamzaInPadding(y, k) {
      HamzaEndsInSpace(text, beyond);
      LastNotKept(text);
    } else {
      if rtl {
        RightToLeftBack(text, beyond);
      } else {
        LeftToRightBack(text, beyond);
      }
      BackSurvives(text, k, rtl);
    }
  }

  lemma LastNotKept(text: seq<nat>)
    requires text != [] && text[|text| - 1] == YehHamza
    ensures !Survives(text, false)
  {
    LastJoinsNothing(text);
    hide Joins, HasPair;
    assert !HamzaKept(text, |text| - 1, false);
  }

  lemma BackSurvives(text: seq<nat>, k: nat, rtl: bool)
    requires AllNominal(text) && (k > 0 <==> HasPair(text))
    requires !rtl && k > 0 && text != [] ==> text[|text| - 1] != YehHamza
    ensures Back(text, k) == text <==> Survives(text, rtl)
  {
    hide Joins, HasPair, Back, AllNominal, NoMarkInPair;
    if !NoMarkInPair(text) {
      MarkedNotBack(text, k);
    } else {
      forall i | 0 <= i < |text|
        ensures Back(text, k)[i] == text[i] <==>
                text[i] != Tail && (text[i] == YehHamza ==> HamzaKept(text, i, rtl))
      {
        BackAt(text, k, i);
      }
    }
  }
}
