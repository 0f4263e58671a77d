/** What shaping keeps: read back letter by letter, shaped text is the text it came from, with a space at the end
    for every lam-alef pair that became one unit. Marks between a lam and its alef end up after the pair.
    A reading also tells the alef of a merged pair, a yeh with hamza in a form that does not join to the next
    letter, and the form of a lone hamza from the plain letters; these are numbers beyond the range of units. */
module ArabicMeaning {

  import opened ArabicTables
  import opened ArabicShaping

  const YehHamza: nat := 0x0626
  const EndYeh: nat := 0x10626
  const HamzaForm: nat := 0xFE80
  const HamzaTag: nat := 0x10621

  function Merged(alef: nat): nat { alef + 0x20000 }

  /** The letters a unit stands for. */
  function Unshaped(y: nat): seq<nat>
  {
    if IsLigature(y) then [Lam, Merged(AlefOf(y))] else [Base(y)]
  }

  function Base(y: nat): nat
  {
    if y == 0xFE89 || y == 0xFE8A then EndYeh
    else if y == HamzaForm then HamzaTag
    else if IsForm(y) then Letter(y) else y
  }

  function Meaning(buf: seq<nat>): seq<nat>
  {
    if buf == [] then [] else Unshaped(buf[0]) + Meaning(buf[1..])
  }

  /** Text in nominal letters: no presentation forms and none of the four ligature codes. */
  predicate Nominal(x: nat) { x < 0x10000 && !(0xFE70 <= x <= 0xFEFC) && !(0x065C <= x <= 0x065F) }

  predicate IsMarkForm(y: nat) { 0xFE70 <= y <= 0xFE7F }

  predicate AllNominal(s: seq<nat>) { forall i :: 0 <= i < |s| ==> Nominal(s[i]) }

  predicate AllIrrelevant(buf: seq<nat>, from: nat, to: nat)
    requires to <= |buf|
  {
    forall k :: from <= k < to ==> IrrelevantUnit(buf[k])
  }

  predicate NoLam(s: seq<nat>, to: nat)
    requires to <= |s|
  {
    forall k :: 0 <= k < to ==> s[k] != Lam
  }

  /** The first place from i on whose unit matters for linking. */
  function Relevant(s: seq<nat>, i: nat): (a: nat)
    requires i <= |s|
    ensures i <= a <= |s| && (forall k :: i <= k < a ==> IrrelevantUnit(s[k])) && (a < |s| ==> !IrrelevantUnit(s[a]))
    decreases |s| - i
  {
    if i < |s| && IrrelevantUnit(s[i]) then Relevant(s, i + 1) else i
  }

  /** A lam and the alef after it, with marks in between or not. */
  predicate Pair(s: seq<nat>)
  {
    s != [] && s[0] == Lam && Relevant(s, 1) < |s| && Ligature(s[Relevant(s, 1)]) != 0
  }

  /** The text with the marks of every lam-alef pair after the pair. */
  function Ordered(s: seq<nat>): seq<nat>
    decreases |s|
  {
    if s == [] then []
    else if Pair(s) then var a := Relevant(s, 1); [Lam, Merged(s[a])] + s[1..a] + Ordered(s[a + 1..])
    else [s[0]] + Ordered(s[1..])
  }

  /** The first letter joins to the next one that matters. */
  predicate Joins(s: seq<nat>)
    requires s != []
  {
    Relevant(s, 1) < |s| && Link(s[Relevant(s, 1)]) % 4 != 0
  }

  /** The text with the yehs with hamza that do not join to the next letter told apart. */
  function Tagged(s: seq<nat>): (t: seq<nat>)
    ensures |t| == |s|
  {
    if s == [] then []
    else [if s[0] == YehHamza && !Joins(s) then EndYeh else s[0]] + Tagged(s[1..])
  }

  // ------------------------------------------------------------------ lemmas on the two readings

  lemma {:induction false} MeaningConcat(a: seq<nat>, b: seq<nat>)
    ensures Meaning(a + b) == Meaning(a) + Meaning(b)
  {
    if a == [] {
      assert a + b == b;
    } else {
      hide Unshaped;
      assert (a + b)[1..] == a[1..] + b;
      MeaningConcat(a[1..], b);
    }
  }

  lemma MeaningOne(y: nat)
    ensures Meaning([y]) == Unshaped(y)
  {
    assert [y][1..] == [];
  }

  predicate Single(y: nat) { !IsLigature(y) }

  /** Without ligatures the reading is unit by unit. */
  lemma {:induction false} MeaningPointwise(buf: seq<nat>)
    requires forall i :: 0 <= i < |buf| ==> Single(buf[i])
    ensures |Meaning(buf)| == |buf| && forall i :: 0 <= i < |buf| ==> Meaning(buf)[i] == Base(buf[i])
  {
    if buf != [] {
      hide Letter;
      MeaningPointwise(buf[1..]);
    }
  }

  lemma RelevantUnique(s: seq<nat>, i: nat, a: nat)
    requires i <= a <= |s| && (forall k :: i <= k < a ==> IrrelevantUnit(s[k])) && (a < |s| ==> !IrrelevantUnit(s[a]))
    ensures Relevant(s, i) == a
  {}

  /** Units that are no lam are copied. */
  lemma {:induction false} OrderedSkip(s: seq<nat>, j: nat)
    requires j <= |s| && NoLam(s, j)
    ensures Ordered(s) == s[..j] + Ordered(s[j..])
  {
    if j == 0 {
      assert s[0..] == s;
    } else {
      assert Ordered(s) == [s[0]] + Ordered(s[1..]);
      OrderedSkip(s[1..], j - 1);
      HeadTail(s, j);
    }
  }

  /** A lam whose next relevant unit is no alef is copied with its marks. */
  lemma OrderedLam(s: seq<nat>, a: nat)
    requires 1 <= a <= |s| && s[0] == Lam && AllIrrelevant(s, 1, a)
    requires a < |s| ==> !IrrelevantUnit(s[a]) && Ligature(s[a]) == 0
    ensures Ordered(s) == s[..a] + Ordered(s[a..])
  {
    hide Ordered, Ligature, AllIrrelevant, NoLam;
    LoneLam(s, a);
    MarksAreNoLam(s, a);
    OrderedSkip(s[1..], a - 1);
    HeadTail(s, a);
  }

  lemma MarksAreNoLam(s: seq<nat>, a: nat)
    requires 1 <= a <= |s| && AllIrrelevant(s, 1, a)
    ensures NoLam(s[1..], a - 1)
  {}

  lemma HeadTail(s: seq<nat>, a: nat)
    requires 1 <= a <= |s|
    ensures s[1..][a - 1..] == s[a..] && s[..a] == [s[0]] + s[1..][..a - 1]
  {}

  lemma LoneLam(s: seq<nat>, a: nat)
    requires 1 <= a <= |s| && AllIrrelevant(s, 1, a)
    requires a < |s| ==> !IrrelevantUnit(s[a]) && Ligature(s[a]) == 0
    ensures Ordered(s) == [s[0]] + Ordered(s[1..])
  {
    RelevantUnique(s, 1, a);
  }

  lemma OrderedPair(s: seq<nat>, a: nat)
    requires 1 <= a < |s| && s[0] == Lam && AllIrrelevant(s, 1, a) && Ligature(s[a]) != 0
    ensures Ordered(s) == [Lam, Merged(s[a])] + s[1..a] + Ordered(s[a + 1..])
  {
    RelevantUnique(s, 1, a);
  }

  lemma PairSpace(s: seq<nat>)
    requires s != []
    ensures Relevant(s + [Space], 1) == Relevant(s, 1) && (Pair(s + [Space]) <==> Pair(s))
  {
    SpaceDoesNotJoin();
    hide Link;
    RelevantUnique(s + [Space], 1, Relevant(s, 1));
  }

  lemma {:induction false} OrderedSpace(s: seq<nat>)
    ensures Ordered(s + [Space]) == Ordered(s) + [Space]
    decreases |s|
  {
    if s == [] {
      NoneOrdered();
      assert s + [Space] == [Space];
    } else {
      PairIn(s);
      hide Relevant, Pair, Ordered;
      if Pair(s) {
        OrderedSpace(s[Relevant(s, 1) + 1..]);
        SpaceAfterPair(s);
      } else {
        OrderedSpace(s[1..]);
        SpaceAfterOne(s);
      }
    }
  }

  lemma NoneOrdered()
    ensures Ordered([]) == [] && Ordered([Space]) == [Space]
  {
    assert [Space][1..] == [];
  }

  lemma SpaceAfterPair(s: seq<nat>)
    requires s != [] && Pair(s)
    requires var rest := s[Relevant(s, 1) + 1..]; Ordered(rest + [Space]) == Ordered(rest) + [Space]
    ensures Ordered(s + [Space]) == Ordered(s) + [Space]
  {
    PairSpace(s);
    OrderedUnfolds(s);
    OrderedUnfolds(s + [Space]);
    var a := Relevant(s, 1);
    hide Relevant, Pair, Ordered;
    PieceSpace(s, a);
  }

  lemma PieceSpace(s: seq<nat>, a: nat)
    requires 1 <= a < |s|
    ensures (s + [Space])[a + 1..] == s[a + 1..] + [Space] && (s + [Space])[1..a] == s[1..a]
  {}

  lemma SpaceAfterOne(s: seq<nat>)
    requires s != [] && !Pair(s) && Ordered(s[1..] + [Space]) == Ordered(s[1..]) + [Space]
    ensures Ordered(s + [Space]) == Ordered(s) + [Space]
  {
    PairSpace(s);
    OrderedUnfolds(s);
    OrderedUnfolds(s + [Space]);
    hide Relevant, Pair, Ordered;
    assert (s + [Space])[1..] == s[1..] + [Space];
  }

  lemma PairIn(s: seq<nat>)
    requires s != []
    ensures Pair(s) ==> 1 <= Relevant(s, 1) < |s|
  {}

  lemma OrderedUnfolds(s: seq<nat>)
    requires s != []
    ensures Ordered(s) == if Pair(s) then [Lam, Merged(s[Relevant(s, 1)])] + s[1..Relevant(s, 1)] + Ordered(s[Relevant(s, 1) + 1..])
                          else [s[0]] + Ordered(s[1..])
  {}

  lemma {:induction false} OrderedLength(s: seq<nat>)
    ensures |Ordered(s)| == |s|
    decreases |s|
  {
    if s != [] {
      if Pair(s) {
        OrderedLength(s[Relevant(s, 1) + 1..]);
      } else {
        OrderedLength(s[1..]);
      }
    }
  }

  // ------------------------------------------------------------------ tags

  predicate NoYeh(s: seq<nat>) { forall k :: 0 <= k < |s| ==> s[k] != YehHamza }

  lemma {:induction false} TaggedAt(s: seq<nat>, i: nat)
    requires i <= |s|
    ensures Tagged(s)[i..] == Tagged(s[i..])
    ensures i < |s| ==> Tagged(s)[i] == if s[i] == YehHamza && !Joins(s[i..]) then EndYeh else s[i]
  {
    hide Joins;
    if i > 0 {
      TaggedAt(s[1..], i - 1);
      assert s[1..][i - 1..] == s[i..];
      assert Tagged(s)[1..] == Tagged(s[1..]);
    } else {
      assert s[0..] == s;
    }
  }

  /** Text without a yeh with hamza keeps its letters. */
  lemma {:induction false} TaggedAfter(u: seq<nat>, r: seq<nat>)
    requires NoYeh(u)
    ensures Tagged(u + r) == u + Tagged(r)
  {
    if u == [] {
      assert u + r == r;
    } else {
      TaggedFirst(u + r);
      hide Joins, Tagged;
      FirstRest(u, r);
      TaggedAfter(u[1..], r);
      FirstRest(u, Tagged(r));
    }
  }

  lemma TaggedFirst(s: seq<nat>)
    requires s != [] && s[0] != YehHamza
    ensures Tagged(s) == [s[0]] + Tagged(s[1..])
  {}

  lemma FirstRest(u: seq<nat>, r: seq<nat>)
    requires u != []
    ensures (u + r)[0] == u[0] && (u + r)[1..] == u[1..] + r && u + r == [u[0]] + (u[1..] + r)
  {}

  lemma JoinsSpace(s: seq<nat>)
    requires s != []
    ensures Joins(s + [Space]) <==> Joins(s)
  {
    hide Link;
    RelevantUnique(s + [Space], 1, Relevant(s, 1));
    SpaceDoesNotJoin();
  }

  lemma SpaceDoesNotJoin()
    ensures Link(Space) == 0 && !IrrelevantUnit(Space)
  {}

  lemma {:induction false} TaggedSpace(s: seq<nat>)
    ensures Tagged(s + [Space]) == Tagged(s) + [Space]
  {
    hide Joins;
    if s == [] {
      assert s + [Space] == [Space] && [Space][1..] == [];
    } else {
      JoinsSpace(s);
      TaggedSpace(s[1..]);
      assert (s + [Space])[1..] == s[1..] + [Space];
    }
  }

  // ------------------------------------------------------------------ the invariant

  /** What has been read so far, and how what follows will be ordered. */
  ghost function Total(buf: seq<nat>, c: nat): seq<nat>
    requires c <= |buf|
  {
    Meaning(buf[..c]) + Ordered(Tagged(Meaning(buf[c..])))
  }

  /** A lam waits for what follows; everything before it is settled. */
  function Settled(m: Machine): nat { if IsLam(m.last) then m.lastPos else m.ix }

  /** A mark or the like, shaped or not. */
  predicate Minor(y: nat) { IrrelevantUnit(y) || IsMarkForm(y) }

  /** Units not shaped yet are nominal, except that going back to a ligature leaves its marks, already shaped, to
      be read again. */
  predicate Unread(buf: seq<nat>, ix: nat)
  {
    && (forall k :: ix <= k < |buf| ==> Nominal(buf[k]) || IsMarkForm(buf[k]))
    && (forall k, i :: ix <= i < k < |buf| && IsMarkForm(buf[k]) ==> Minor(buf[i]))
  }

  predicate AheadOk(m: Machine)
  {
    match m.nx
    case Unknown => true
    case At(p) => m.ix < p < |m.buf| && m.next == Link(m.buf[p]) && AllIrrelevant(m.buf, m.ix, p)
    case Beyond => m.next == 0 && AllIrrelevant(m.buf, m.ix, |m.buf|)
  }

  predicate CurrOk(m: Machine)
  {
    m.ix < |m.buf| ==>
      m.curr == Link(m.buf[m.ix]) || (m.curr == 0 && AllIrrelevant(m.buf, m.ix, |m.buf|))
  }

  /** A lam that waits is followed by marks only, up to where the machine reads. */
  predicate Waiting(buf: seq<nat>, last: nat, lastPos: nat, ix: nat)
  {
    IsLam(last) ==> LamStretch(buf, lastPos, ix)
  }

  ghost predicate Structure(m: Machine)
  {
    && m.ix <= |m.buf| && m.lastPos < |m.buf|
    && Unread(m.buf, m.ix) && AheadOk(m) && CurrOk(m) && Waiting(m.buf, m.last, m.lastPos, m.ix)
    && m.last % 4 != 2
  }

  function Spaces(k: nat): seq<nat> { seq(k, i => Space) }

  // ------------------------------------------------------------------ moving the settled point

  lemma MinorFacts(y: nat)
    requires Minor(y)
    ensures Single(y) && IrrelevantUnit(Base(y)) && Base(y) != Lam && Base(y) != YehHamza && Unshaped(y) == [Base(y)]
  {}

  lemma NominalFacts(y: nat)
    requires Nominal(y)
    ensures Single(y) && Base(y) == y && Unshaped(y) == [y]
  {}

  lemma {:induction false} MeaningEq(a: seq<nat>, b: seq<nat>)
    requires |a| == |b| && forall i :: 0 <= i < |a| ==> Unshaped(a[i]) == Unshaped(b[i])
    ensures Meaning(a) == Meaning(b)
  {
    if a != [] {
      hide Unshaped;
      MeaningEq(a[1..], b[1..]);
    }
  }

  lemma TotalUpdate(buf: seq<nat>, i: nat, y: nat, c: nat)
    requires i < |buf| && c <= |buf| && Unshaped(y) == Unshaped(buf[i])
    ensures Total(buf[i := y], c) == Total(buf, c)
  {
    hide Unshaped;
    MeaningEq(buf[i := y][..c], buf[..c]);
    MeaningEq(buf[i := y][c..], buf[c..]);
  }

  /** Units that are no lam and no yeh with hamza settle at once. */
  lemma TotalSkip(buf: seq<nat>, c: nat, j: nat)
    requires c <= j <= |buf|
    requires forall k :: c <= k < j ==> Single(buf[k]) && Base(buf[k]) != Lam && Base(buf[k]) != YehHamza
    ensures Total(buf, c) == Total(buf, j)
  {
    hide Base, Single, Unshaped, Meaning, Ordered, Tagged;
    var part := buf[c..j];
    var u, r := Meaning(part), Meaning(buf[j..]);
    MeaningPointwise(part);
    forall k | 0 <= k < |u| ensures u[k] != Lam && u[k] != YehHamza {
      assert u[k] == Base(part[k]) && part[k] == buf[c + k];
    }
    assert buf[c..] == part + buf[j..];
    MeaningConcat(part, buf[j..]);
    MeaningPrefix(buf, c, j);
    TaggedAfter(u, r);
    OrderedAfter(u, Tagged(r));
  }

  lemma OrderedAfter(u: seq<nat>, r: seq<nat>)
    requires NoLam(u, |u|)
    ensures Ordered(u + r) == u + Ordered(r)
  {
    hide Ordered;
    OrderedSkip(u + r, |u|);
    assert (u + r)[|u|..] == r && (u + r)[..|u|] == u;
  }

  predicate LamStretch(buf: seq<nat>, c: nat, i: nat)
  {
    && c < i <= |buf| && Unshaped(buf[c]) == [Lam]
    && (forall k :: c < k < i ==> Minor(buf[k]))
    && (forall k :: i <= k < |buf| ==> Nominal(buf[k]))
  }

  /** The reading from a waiting lam on: the lam, its marks, and then the units themselves. */
  lemma StretchMeaning(buf: seq<nat>, c: nat, i: nat)
    requires LamStretch(buf, c, i)
    ensures var u := Meaning(buf[c..i]);
            && Meaning(buf[c..]) == u + Meaning(buf[i..]) && Meaning(buf[i..]) == buf[i..]
            && |u| == i - c && u[0] == Lam && AllIrrelevant(u, 1, |u|) && NoYeh(u)
  {
    StretchPointwise(buf, c, i);
    hide Unshaped, Letter, Meaning;
    MeaningPointwise(buf[c..i]);
    MeaningPointwise(buf[i..]);
    assert buf[c..] == buf[c..i] + buf[i..];
    MeaningConcat(buf[c..i], buf[i..]);
    MarksAreNoYeh();
  }

  lemma MarksAreNoYeh()
    ensures !IrrelevantUnit(YehHamza) && Lam != YehHamza
  {}

  lemma StretchPointwise(buf: seq<nat>, c: nat, i: nat)
    requires LamStretch(buf, c, i)
    ensures forall k :: c <= k < |buf| ==> Single(buf[k])
    ensures Base(buf[c]) == Lam
    ensures forall k :: c < k < i ==> IrrelevantUnit(Base(buf[k]))
    ensures forall k :: i <= k < |buf| ==> Base(buf[k]) == buf[k]
  {
    hide Letter;
    forall k | c < k < i ensures Single(buf[k]) && IrrelevantUnit(Base(buf[k])) {
      MinorFacts(buf[k]);
    }
    forall k | i <= k < |buf| ensures Single(buf[k]) && Base(buf[k]) == buf[k] {
      NominalFacts(buf[k]);
    }
  }

  lemma TagFacts(r: seq<nat>)
    requires r != []
    ensures Tagged(r)[0] == r[0] || (r[0] == YehHamza && Tagged(r)[0] == EndYeh)
    ensures !IrrelevantUnit(EndYeh) && Ligature(EndYeh) == 0
  {}

  /** A lam whose next relevant unit is no alef settles. */
  lemma TotalLam(buf: seq<nat>, c: nat, i: nat)
    requires LamStretch(buf, c, i)
    requires i < |buf| ==> !IrrelevantUnit(buf[i]) && Ligature(buf[i]) == 0
    ensures Total(buf, c) == Total(buf, i)
  {
    hide LamStretch, Unshaped, Meaning, Ordered, Ligature, Tagged, IrrelevantUnit;
    LamMoves(buf, c, i);
    MeaningPrefix(buf, c, i);
  }

  lemma LamMoves(buf: seq<nat>, c: nat, i: nat)
    requires LamStretch(buf, c, i)
    requires i < |buf| ==> !IrrelevantUnit(buf[i]) && Ligature(buf[i]) == 0
    ensures c <= i <= |buf|
    ensures Ordered(Tagged(Meaning(buf[c..]))) == Meaning(buf[c..i]) + Ordered(Tagged(Meaning(buf[i..])))
  {
    assert c < i <= |buf|;
    hide LamStretch, Unshaped, Meaning, Ordered, Ligature, Tagged, NoYeh, AllIrrelevant, IrrelevantUnit;
    StretchMeaning(buf, c, i);
    StretchRest(buf, c, i);
    var u, r := Meaning(buf[c..i]), Meaning(buf[i..]);
    TaggedAfter(u, r);
    LoneLamAfter(u, Tagged(r));
  }

  lemma StretchRest(buf: seq<nat>, c: nat, i: nat)
    requires LamStretch(buf, c, i)
    requires i < |buf| ==> !IrrelevantUnit(buf[i]) && Ligature(buf[i]) == 0
    ensures var r := Tagged(Meaning(buf[i..]));
            r != [] ==> !IrrelevantUnit(r[0]) && Ligature(r[0]) == 0
    ensures Meaning(buf[c..i]) != []
  {
    hide Ligature, IrrelevantUnit, Tagged, Meaning;
    StretchMeaning(buf, c, i);
    if i < |buf| {
      assert buf[i..][0] == buf[i];
      TagFacts(buf[i..]);
    }
  }

  lemma LoneLamAfter(u: seq<nat>, r: seq<nat>)
    requires u != [] && u[0] == Lam && AllIrrelevant(u, 1, |u|)
    requires r != [] ==> !IrrelevantUnit(r[0]) && Ligature(r[0]) == 0
    ensures Ordered(u + r) == u + Ordered(r)
  {
    hide Ordered, Ligature, IrrelevantUnit;
    OrderedLam(u + r, |u|);
    assert (u + r)[|u|..] == r && (u + r)[..|u|] == u;
  }

  lemma MeaningPrefix(buf: seq<nat>, c: nat, i: nat)
    requires c <= i <= |buf|
    ensures Meaning(buf[..i]) == Meaning(buf[..c]) + Meaning(buf[c..i])
  {
    assert buf[..i] == buf[..c] + buf[c..i];
    MeaningConcat(buf[..c], buf[c..i]);
  }

  /** A lam-alef pair merged into one unit is read as before, and a space more. */
  lemma TotalMerge(buf: seq<nat>, c: nat, i: nat, y: nat)
    requires LamStretch(buf, c, i) && i < |buf| && Ligature(buf[i]) != 0
    requires Unshaped(y) == [Lam, Merged(buf[i])]
    ensures var merged := Dropped(buf[c := y], i);
            Total(merged, c + 1) == Total(buf, c) + [Space]
  {
    var rest := buf[i + 1..];
    MergedPieces(buf, c, i, y);
    PairOrder(buf, c, i);
    hide LamStretch, Unshaped, Meaning, Ordered, Ligature, Dropped, Tagged;
    MeaningConcat(buf[..c], [y]);
    MeaningOne(y);
    MeaningSpace(buf[c + 1..i], rest);
    StretchMinor(buf, c, i);
    MergedOrder(Meaning(buf[c + 1..i]), Meaning(rest));
    Assemble(Meaning(buf[..c]), [Lam, Merged(buf[i])], Meaning(buf[c + 1..i]), Ordered(Tagged(Meaning(rest))));
  }

  lemma Assemble(a: seq<nat>, pair: seq<nat>, u: seq<nat>, r: seq<nat>)
    ensures (a + pair) + (u + r + [Space]) == (a + (pair + u + r)) + [Space]
  {}

  lemma MergedPieces(buf: seq<nat>, c: nat, i: nat, y: nat)
    requires c < i < |buf|
    ensures var merged := Dropped(buf[c := y], i);
            merged[c + 1..] == buf[c + 1..i] + (buf[i + 1..] + [Space]) && merged[..c + 1] == buf[..c] + [y]
  {}

  lemma PairOrder(buf: seq<nat>, c: nat, i: nat)
    requires LamStretch(buf, c, i) && i < |buf| && Ligature(buf[i]) != 0
    ensures Ordered(Tagged(Meaning(buf[c..]))) ==
            [Lam, Merged(buf[i])] + Meaning(buf[c + 1..i]) + Ordered(Tagged(Meaning(buf[i + 1..])))
  {
    StretchMeaning(buf, c, i);
    StretchTail(buf, c, i);
    AlefIsNoYeh(buf[i]);
    hide LamStretch, Unshaped, Meaning, Ordered, Ligature, NoYeh, Joins;
    var u, r := Meaning(buf[c..i]), Meaning(buf[i..]);
    TaggedAfter(u, r);
    assert r[0] == buf[i] && r[1..] == buf[i + 1..];
    assert Tagged(r) == [buf[i]] + Tagged(buf[i + 1..]);
    hide Tagged;
    PairAfter(u, buf[i], Tagged(buf[i + 1..]));
  }

  lemma AlefIsNoYeh(x: nat)
    requires Ligature(x) != 0
    ensures x != YehHamza && !IrrelevantUnit(x)
  {}

  lemma PairAfter(u: seq<nat>, alef: nat, r: seq<nat>)
    requires u != [] && u[0] == Lam && AllIrrelevant(u, 1, |u|) && Ligature(alef) != 0
    ensures Ordered(u + ([alef] + r)) == [Lam, Merged(alef)] + u[1..] + Ordered(r)
  {
    hide Ordered, Ligature, IrrelevantUnit;
    var s := u + ([alef] + r);
    OrderedPair(s, |u|);
    assert s[|u| + 1..] == r && s[1..|u|] == u[1..];
  }

  /** The marks between, and what follows the alef. */
  lemma StretchTail(buf: seq<nat>, c: nat, i: nat)
    requires LamStretch(buf, c, i) && i < |buf|
    ensures Meaning(buf[c..i]) != [] && Meaning(buf[c..i])[1..] == Meaning(buf[c + 1..i])
    ensures Meaning(buf[i + 1..]) == buf[i + 1..]
  {
    StretchPointwise(buf, c, i);
    hide Unshaped, Letter, Meaning;
    MeaningPointwise(buf[c..i]);
    MeaningPointwise(buf[c + 1..i]);
    MeaningPointwise(buf[i + 1..]);
  }

  lemma MergedOrder(u: seq<nat>, r: seq<nat>)
    requires NoLam(u, |u|) && NoYeh(u)
    ensures Ordered(Tagged(u + (r + [Space]))) == u + Ordered(Tagged(r)) + [Space]
  {
    hide Ordered, Tagged;
    TaggedAfter(u, r + [Space]);
    TaggedSpace(r);
    OrderedAfter(u, Tagged(r) + [Space]);
    OrderedSpace(Tagged(r));
  }

  lemma MeaningSpace(marks: seq<nat>, rest: seq<nat>)
    ensures Meaning(marks + (rest + [Space])) == Meaning(marks) + (Meaning(rest) + [Space])
  {
    MeaningConcat(marks, rest + [Space]);
    MeaningConcat(rest, [Space]);
    MeaningOne(Space);
  }

  lemma StretchMinor(buf: seq<nat>, c: nat, i: nat)
    requires LamStretch(buf, c, i)
    ensures var u := Meaning(buf[c + 1..i]); NoLam(u, |u|) && NoYeh(u)
  {
    StretchPointwise(buf, c, i);
    MeaningPointwise(buf[c + 1..i]);
  }

  /** A yeh with hamza settles: its form tells whether it joins to the next letter. */
  lemma TotalYeh(buf: seq<nat>, i: nat, y: nat)
    requires i < |buf| && buf[i] == YehHamza && (forall k :: i <= k < |buf| ==> Nominal(buf[k]))
    requires Unshaped(y) == [if Joins(buf[i..]) then YehHamza else EndYeh]
    ensures Total(buf[i := y], i + 1) == Total(buf, i)
  {
    hide Letter, Joins;
    forall k | i <= k < |buf| ensures Single(buf[k]) && Base(buf[k]) == buf[k] {
      NominalFacts(buf[k]);
    }
    hide Single, Base, Unshaped, Meaning, Tagged, Nominal;
    MeaningPointwise(buf[i..]);
    MeaningPointwise(buf[i + 1..]);
    assert Meaning(buf[i..]) == buf[i..] && Meaning(buf[i + 1..]) == buf[i + 1..];
    YehTag(buf[i..]);
    assert buf[i..][1..] == buf[i + 1..];
    MeaningConcat(buf[..i], [y]);
    MeaningOne(y);
    YehPlace(buf, i, y);
  }

  lemma YehPlace(buf: seq<nat>, i: nat, y: nat)
    requires i < |buf|
    ensures buf[i := y][..i + 1] == buf[..i] + [y] && buf[i := y][i + 1..] == buf[i + 1..]
  {}

  lemma YehTag(r: seq<nat>)
    requires r != [] && r[0] == YehHamza
    ensures Ordered(Tagged(r)) == [if Joins(r) then YehHamza else EndYeh] + Ordered(Tagged(r[1..]))
  {
    hide Joins, Ordered;
    var tag := if Joins(r) then YehHamza else EndYeh;
    assert Tagged(r) == [tag] + Tagged(r[1..]);
    hide Tagged;
    TagIsNoLam();
    OrderedAfter([tag], Tagged(r[1..]));
  }

  lemma TagIsNoLam()
    ensures YehHamza != Lam && EndYeh != Lam
  {}
}
