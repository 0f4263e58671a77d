/** Which presentation form every unit gets, told from the links of its neighbours in the text with its lam-alef pairs
    merged. */
module ArabicForms {

  import opened ArabicTables
  import opened ArabicShaping
  import opened ArabicMeaning
  import opened ArabicRoundTrip

  // ------------------------------------------------------------------ the letters and their joining types

  /** Letters that join on both sides, by Unicode's joining types. */
  predicate DualJoining(x: nat)
  {
    || x in {0x0626, 0x0628, 0x064A} || 0x062A <= x <= 0x062E || 0x0633 <= x <= 0x063A || 0x0641 <= x <= 0x0647
  }

  /** Letters that join to the letter before them only. */
  predicate RightJoining(x: nat)
  {
    || 0x0622 <= x <= 0x0625 || x in {0x0627, 0x0629, 0x0648, 0x0649} || 0x062F <= x <= 0x0632
  }

  /** The first of the forms of a letter is the isolated one. */
  predicate LetterEntry(x: nat)
  {
    && (DualJoining(x) ==> Link06(x) % 4 == 3 && HasShapes(Link06(x)))
    && (RightJoining(x) ==> Link06(x) % 4 == 1 && HasShapes(Link06(x)))
    && (HasShapes(Link06(x)) ==>
          && (DualJoining(x) || RightJoining(x))
          && Letter(0xFE70 + Link06(x) / 256) == x && Letter(0xFE6F + Link06(x) / 256) != x)
  }

  lemma LettersFirst(x: nat)
    requires 0x0622 <= x <= 0x062C
    ensures LetterEntry(x)
  {}

  lemma LettersSecond(x: nat)
    requires 0x062D <= x <= 0x0637
    ensures LetterEntry(x)
  {}

  lemma LettersThird(x: nat)
    requires 0x0638 <= x <= 0x0643
    ensures LetterEntry(x)
  {}

  lemma LettersLast(x: nat)
    requires 0x0644 <= x <= 0x064A
    ensures LetterEntry(x)
  {}

  /** The links of the letters are their joining types, and lead to the isolated form. */
  lemma LetterLinks(x: nat)
    requires 0x0622 <= x <= 0x064A
    ensures DualJoining(x) <==> HasShapes(Link(x)) && Link(x) % 4 == 3
    ensures RightJoining(x) <==> HasShapes(Link(x)) && Link(x) % 4 == 1
    ensures HasShapes(Link(x)) ==>
              Letter(0xFE70 + Link(x) / 256) == x && Letter(0xFE6F + Link(x) / 256) != x
  {
    hide Letter, Link06;
    if x <= 0x062C {
      LettersFirst(x);
    } else if x <= 0x0637 {
      LettersSecond(x);
    } else if x <= 0x0643 {
      LettersThird(x);
    } else {
      LettersLast(x);
    }
  }

  // ------------------------------------------------------------------ the text with merged pairs

  /** The form of a mark that stands on no connection. */
  function PlainMark(x: nat): nat { if IsMark(x) then 0xFE70 + 2 * (x - 0x064B) else x }

  function PlainMarks(s: seq<nat>): (r: seq<nat>)
    ensures |r| == |s|
    ensures forall i :: 0 <= i < |s| ==> r[i] == PlainMark(s[i])
  {
    seq(|s|, i requires 0 <= i < |s| => PlainMark(s[i]))
  }

  /** Every lam-alef pair has become one unit, with the marks between lam and alef, in their plain forms, behind. */
  function Paired(s: seq<nat>): (r: seq<nat>)
    ensures |r| <= |s|
    decreases |s|
  {
    if s == [] then []
    else if Pair(s) then
      var a := Relevant(s, 1);
      [Ligature(s[a])] + PlainMarks(s[1..a]) + Paired(s[a + 1..])
    else [s[0]] + Paired(s[1..])
  }

  /** The merged text, with spaces in place of the units merged away. */
  function MergedText(text: seq<nat>): (p: seq<nat>)
    ensures |p| == |text|
  {
    Paired(text) + Spaces(|text| - |Paired(text)|)
  }

  // ------------------------------------------------------------------ the rule

  /** The link of the nearest unit before i that matters for linking, or none. */
  function LastLink(p: seq<nat>, i: nat): nat
    requires i <= |p|
  {
    if i == 0 then 0 else if !Irrelevant(Link(p[i - 1])) then Link(p[i - 1]) else LastLink(p, i - 1)
  }

  /** A unit to look ahead to: it matters for linking and is no mark of a merged pair. */
  predicate Solid(x: nat) { !IrrelevantUnit(x) && !IsMarkForm(x) }

  function FirstLink(s: seq<nat>): nat
  {
    if s == [] then 0 else if Solid(s[0]) then Link(s[0]) else FirstLink(s[1..])
  }

  /** The link of the nearest unit after i to look ahead to, or none. */
  function NextLink(p: seq<nat>, i: nat): nat
    requires i < |p|
  {
    FirstLink(p[i + 1..])
  }

  /** What the last letter with forms before i saw ahead of it. */
  function LookedAhead(p: seq<nat>, i: nat): nat
    requires i <= |p|
  {
    if i == 0 then 0 else if HasShapes(Link(p[i - 1])) then NextLink(p, i - 1) else LookedAhead(p, i - 1)
  }

  predicate LinksRight(link: nat) { link % 4 == 1 || link % 4 == 3 }
  predicate LinksLeft(link: nat) { link % 4 == 3 }

  /** A mark on the connection of two letters. A mark behind a unit that has no forms is seen before the same unit as
      the last letter with forms. */
  predicate OnConnection(p: seq<nat>, i: nat)
    requires i < |p|
  {
    && LinksLeft(LastLink(p, i)) && LinksRight(LookedAhead(p, i))
    && !(IsLam(LastLink(p, i)) && IsAlef(LookedAhead(p, i)))
  }

  /** y is shown for unit i of the merged text p: a letter is isolated, final, initial or medial (its forms 0 to 3 in
      this order) as its neighbours join to it. */
  predicate ShownAs(p: seq<nat>, i: nat, y: nat)
    requires i < |p|
  {
    var link := Link(p[i]);
    var before := LinksLeft(LastLink(p, i));
    var after := LinksRight(NextLink(p, i));
    && (HasShapes(link) && link % 4 == 3 ==>
          && (!before && !after ==> y == 0xFE70 + link / 256)
          && (before && !after ==> y == 0xFE70 + link / 256 + 1)
          && (!before && after ==> y == 0xFE70 + link / 256 + 2)
          && (before && after ==> y == 0xFE70 + link / 256 + 3))
    && (HasShapes(link) && link % 4 == 1 ==> y == 0xFE70 + link / 256 + if before then 1 else 0)
    && (IsMark(p[i]) ==>
          y == PlainMark(p[i]) + if OnConnection(p, i) && p[i] != 0x064C && p[i] != 0x064D then 1 else 0)
    && (!HasShapes(link) && !IsMark(p[i]) ==> y == p[i])
  }

  // ------------------------------------------------------------------ the choice table follows the rule

  lemma ChoiceFollows(next: nat, last: nat, curr: nat)
    requires next % 4 != 2 && last % 4 != 2
    ensures curr % 4 == 3 ==>
              ShapeOf(next, last, curr) ==
              (if LinksLeft(last) then 1 else 0) + (if LinksRight(next) then 2 else 0)
    ensures curr % 4 == 1 ==> ShapeOf(next, last, curr) == if LinksLeft(last) then 1 else 0
  {}

  // ------------------------------------------------------------------ looking ahead in the merged text

  /** Looking at a lam is as good as looking at the ligature it becomes. */
  predicate Alike(link: nat, link': nat)
  {
    link == link' || (link == Link(Lam) && link' % 4 == 1 && !IsAlef(link'))
  }

  lemma AlikeJoins(link: nat, link': nat)
    requires Alike(link, link')
    ensures LinksRight(link) <==> LinksRight(link')
    ensures IsAlef(link) <==> IsAlef(link')
    ensures link % 4 != 2 ==> link' % 4 != 2
  {}

  lemma LigatureLinks(x: nat)
    requires Ligature(x) != 0
    ensures var link := Link(Ligature(x));
            && link % 4 == 1 && !IsAlef(link) && !IsLam(link) && HasShapes(link) && !Irrelevant(link)
    ensures Solid(Ligature(x)) && !IsMark(Ligature(x))
  {}

  lemma SpacesAhead(j: nat)
    ensures FirstLink(Spaces(j)) == 0
  {
    SpaceDoesNotJoin();
    if j > 0 {
      assert Spaces(j)[0] == Space;
    }
  }

  lemma PairedHead(s: seq<nat>)
    requires s != []
    ensures Paired(s) != []
    ensures !Pair(s) ==> Paired(s) == [s[0]] + Paired(s[1..])
    ensures Pair(s) ==> Paired(s)[0] == Ligature(s[Relevant(s, 1)]) && Ligature(s[Relevant(s, 1)]) != 0
    ensures s[0] != Lam ==> !Pair(s)
  {}

  lemma FirstOf(x: nat, r: seq<nat>)
    ensures FirstLink([x] + r) == if Solid(x) then Link(x) else FirstLink(r)
  {
    assert ([x] + r)[1..] == r;
  }

  lemma NominalSolid(x: nat)
    requires Nominal(x)
    ensures Solid(x) <==> !IrrelevantUnit(x)
    ensures IrrelevantUnit(x) ==> x != Lam
  {}

  /** What one sees ahead in the merged text is what one sees in the text. */
  lemma {:induction false} MergedAhead(buf: seq<nat>, i: nat, j: nat)
    requires i <= |buf| && forall k :: i <= k < |buf| ==> Nominal(buf[k])
    ensures var a := Relevant(buf, i);
            Alike(if a < |buf| then Link(buf[a]) else 0, FirstLink(Paired(buf[i..]) + Spaces(j)))
    decreases |buf| - i
  {
    var s := buf[i..];
    if i == |buf| {
      SpacesAhead(j);
      assert Paired(s) + Spaces(j) == Spaces(j);
    } else {
      PairedHead(s);
      NominalSolid(buf[i]);
      hide Paired, Link, Solid, IrrelevantUnit, Ligature, Nominal;
      if IrrelevantUnit(buf[i]) {
        MergedAhead(buf, i + 1, j);
        assert s[1..] == buf[i + 1..];
        FirstOf(s[0], Paired(s[1..]) + Spaces(j));
        assert Paired(s) + Spaces(j) == [s[0]] + (Paired(s[1..]) + Spaces(j));
      } else {
        var rest := Paired(s)[1..] + Spaces(j);
        assert Paired(s) + Spaces(j) == [Paired(s)[0]] + rest;
        FirstOf(Paired(s)[0], rest);
        if Pair(s) {
          LigatureLinks(s[Relevant(s, 1)]);
        }
      }
    }
  }

  // ------------------------------------------------------------------ the machine follows the rule

  /** From ix on the merged text is what merging leaves of the text not read yet. */
  ghost predicate Left(p: seq<nat>, buf: seq<nat>, ix: nat)
    requires ix <= |p| == |buf|
  {
    exists j: nat :: p[ix..] == Paired(buf[ix..]) + Spaces(j)
  }

  predicate NoAlefNext(buf: seq<nat>, ix: nat)
    requires ix <= |buf|
  {
    Relevant(buf, ix) == |buf| || Ligature(buf[Relevant(buf, ix)]) == 0
  }

  /** No pair is under way: the units before ix are shown by the rule, and the machine knows what the rule looks
      at. */
  ghost predicate Closed(p: seq<nat>, buf: seq<nat>, ix: nat, last: nat, next: nat)
  {
    && ix <= |p| == |buf|
    && (forall i :: 0 <= i < ix ==> ShownAs(p, i, buf[i]))
    && Left(p, buf, ix)
    && last == LastLink(p, ix) && Alike(next, LookedAhead(p, ix))
    && (IsLam(last) ==> NoAlefNext(buf, ix))
  }

  ghost predicate LeftInPair(p: seq<nat>, buf: seq<nat>, ix: nat, a: nat)
    requires ix <= a < |buf| == |p|
  {
    exists j: nat :: p[ix..] == PlainMarks(buf[ix..a]) + Paired(buf[a + 1..]) + Spaces(j)
  }

  /** The lam of a pair stands at c and its alef is ahead, over marks only. */
  ghost predicate Open(p: seq<nat>, buf: seq<nat>, ix: nat, c: nat, last: nat, prev: nat, next: nat)
  {
    && c < ix <= |p| == |buf|
    && (forall i :: 0 <= i < c ==> ShownAs(p, i, buf[i]))
    && last == Link(Lam) && prev == LastLink(p, c)
    && (forall k :: c < k < ix ==> buf[k] == p[k] && Minor(buf[k]))
    && var a := Relevant(buf, ix);
       a < |buf| && Ligature(buf[a]) != 0 && next == Link(buf[a]) && p[c] == Ligature(buf[a])
       && LeftInPair(p, buf, ix, a)
  }

  /** The unit at ix, when it does not begin a pair, is in the merged text as it is. */
  lemma LeftStep(p: seq<nat>, buf: seq<nat>, ix: nat, y: nat)
    requires ix < |p| == |buf| && Left(p, buf, ix) && !Pair(buf[ix..])
    ensures p[ix] == buf[ix] && Left(p, buf[ix := y], ix + 1)
  {
    var s := buf[ix..];
    var j: nat :| p[ix..] == Paired(s) + Spaces(j);
    PairedHead(s);
    hide Paired, Pair;
    assert s[1..] == buf[ix + 1..] == buf[ix := y][ix + 1..];
    assert p[ix] == p[ix..][0] && p[ix + 1..] == p[ix..][1..];
    assert p[ix + 1..] == Paired(buf[ix := y][ix + 1..]) + Spaces(j);
  }

  lemma RelevantSame(buf: seq<nat>, buf': seq<nat>, i: nat)
    requires i <= |buf| == |buf'| && buf[i..] == buf'[i..]
    ensures Relevant(buf, i) == Relevant(buf', i)
    ensures Relevant(buf, i) < |buf| ==> buf'[Relevant(buf, i)] == buf[Relevant(buf, i)]
  {
    var a := Relevant(buf, i);
    forall k | i <= k < |buf| ensures buf'[k] == buf[k] {
      assert buf[k] == buf[i..][k - i] && buf'[k] == buf'[i..][k - i];
    }
    RelevantUnique(buf', i, a);
  }

  /** A mark outside a pair. */
  lemma MarkStep(p: seq<nat>, buf: seq<nat>, ix: nat, last: nat, next: nat)
    requires Closed(p, buf, ix, last, next) && ix < |buf| && IrrelevantUnit(buf[ix])
    requires last % 4 != 2 && next % 4 != 2
    ensures var y := if IsMark(buf[ix]) then MarkForm(buf[ix], next, last) else buf[ix];
            Closed(p, buf[ix := y], ix + 1, last, next)
  {
    var x := buf[ix];
    var y := if IsMark(x) then MarkForm(x, next, last) else x;
    LinkFacts(x);
    assert buf[ix..][0] == x && x != Lam;
    LeftStep(p, buf, ix, y);
    AlikeJoins(next, LookedAhead(p, ix));
    hide Left, Link, Ligature, NextLink;
    MarkShown(p, ix, last, next);
    MarkMovesOn(p, ix);
    assert buf[ix := y][ix + 1..] == buf[ix + 1..];
    RelevantSame(buf, buf[ix := y], ix + 1);
  }

  lemma MarkMovesOn(p: seq<nat>, ix: nat)
    requires ix < |p| && Link(p[ix]) == 4
    ensures LastLink(p, ix + 1) == LastLink(p, ix) && LookedAhead(p, ix + 1) == LookedAhead(p, ix)
  {}

  lemma MarkShown(p: seq<nat>, ix: nat, last: nat, next: nat)
    requires ix < |p| && IrrelevantUnit(p[ix]) && Link(p[ix]) == 4
    requires last == LastLink(p, ix) && last % 4 != 2
    requires LinksRight(next) <==> LinksRight(LookedAhead(p, ix))
    requires IsAlef(next) <==> IsAlef(LookedAhead(p, ix))
    ensures ShownAs(p, ix, if IsMark(p[ix]) then MarkForm(p[ix], next, last) else p[ix])
  {
    hide Link, LastLink, LookedAhead, NextLink;
  }

  /** A unit without forms that matters for linking. */
  lemma PlainStep(p: seq<nat>, buf: seq<nat>, ix: nat, last: nat, next: nat)
    requires Closed(p, buf, ix, last, next) && ix < |buf|
    requires Nominal(buf[ix]) || IsMarkForm(buf[ix])
    requires !HasShapes(Link(buf[ix])) && !Irrelevant(Link(buf[ix]))
    ensures Closed(p, buf, ix + 1, Link(buf[ix]), next)
  {
    var x := buf[ix];
    LinkFacts(x);
    PlainIsNoLam(x);
    assert buf[ix..][0] == x && buf[ix := x] == buf;
    LeftStep(p, buf, ix, x);
    hide Left, Link, Ligature, NextLink;
    assert ShownAs(p, ix, x);
    assert LastLink(p, ix + 1) == Link(x) && LookedAhead(p, ix + 1) == LookedAhead(p, ix);
  }

  /** A letter gets the form of the rule. */
  lemma LetterShown(p: seq<nat>, ix: nat, last: nat, next: nat)
    requires ix < |p| && HasShapes(Link(p[ix])) && Link(p[ix]) % 4 in {1, 3} && !IrrelevantUnit(p[ix])
    requires last == LastLink(p, ix) && last % 4 != 2 && next % 4 != 2
    requires Link(p[ix]) % 4 == 3 ==> (LinksRight(next) <==> LinksRight(NextLink(p, ix)))
    ensures ShownAs(p, ix, Form(next, last, Link(p[ix])))
  {
    ChoiceFollows(next, last, Link(p[ix]));
    hide Link, LastLink, LookedAhead, NextLink, ShapeOf;
  }

  lemma LetterMovesOn(p: seq<nat>, ix: nat)
    requires ix < |p| && HasShapes(Link(p[ix])) && !Irrelevant(Link(p[ix]))
    ensures LastLink(p, ix + 1) == Link(p[ix]) && LookedAhead(p, ix + 1) == NextLink(p, ix)
  {}

  lemma AheadOfLetter(p: seq<nat>, buf: seq<nat>, ix: nat)
    requires ix < |p| == |buf| && Left(p, buf, ix + 1) && forall k :: ix < k < |buf| ==> Nominal(buf[k])
    ensures var a := Relevant(buf, ix + 1);
            Alike(if a < |buf| then Link(buf[a]) else 0, NextLink(p, ix))
  {
    var j: nat :| p[ix + 1..] == Paired(buf[ix + 1..]) + Spaces(j);
    hide Paired, Link, Nominal;
    MergedAhead(buf, ix + 1, j);
  }

  /** A letter that begins no pair. */
  lemma LetterStep(p: seq<nat>, buf: seq<nat>, ix: nat, last: nat, next: nat, look: nat)
    requires Closed(p, buf, ix, last, next) && ix < |buf| && !Pair(buf[ix..]) && last % 4 != 2
    requires HasShapes(Link(buf[ix])) && Nominal(buf[ix]) && forall k :: ix < k < |buf| ==> Nominal(buf[k])
    requires var a := Relevant(buf, ix + 1); look == if a < |buf| then Link(buf[a]) else 0
    ensures Closed(p, buf[ix := Form(look, last, Link(buf[ix]))], ix + 1, Link(buf[ix]), look)
  {
    hide Left, Link, Ligature, NextLink, Form, Pair, Nominal, ShownAs, Alike, IsLam, HasShapes;
    var x := buf[ix];
    var buf' := buf[ix := Form(look, last, Link(x))];
    LetterFacts'(x);
    LeftStep(p, buf, ix, buf'[ix]);
    LetterAhead(p, buf, ix, look);
    LetterShown(p, ix, last, look);
    LetterMovesOn(p, ix);
    assert buf'[ix + 1..] == buf[ix + 1..];
    RelevantSame(buf, buf', ix + 1);
    if x == Lam {
      NoPairAhead(buf, ix);
    }
  }

  lemma LetterFacts'(x: nat)
    requires HasShapes(Link(x)) && Nominal(x)
    ensures Link(x) % 4 in {1, 3} && !IrrelevantUnit(x) && !Irrelevant(Link(x)) && (IsLam(Link(x)) <==> x == Lam)
  {
    LinkFacts(x);
    OnlyLetters(x);
    LetterLinks(x);
    hide Link, Letter;
  }

  lemma LetterAhead(p: seq<nat>, buf: seq<nat>, ix: nat, look: nat)
    requires ix < |p| == |buf| && Left(p, buf, ix) && !Pair(buf[ix..])
    requires forall k :: ix < k < |buf| ==> Nominal(buf[k])
    requires var a := Relevant(buf, ix + 1); look == if a < |buf| then Link(buf[a]) else 0
    ensures look % 4 != 2 && Alike(look, NextLink(p, ix))
    ensures LinksRight(look) <==> LinksRight(NextLink(p, ix))
  {
    hide Left, Link, NextLink, Pair, Nominal, Alike;
    LeftStep(p, buf, ix, buf[ix]);
    assert buf[ix := buf[ix]] == buf;
    AheadOfLetter(p, buf, ix);
    AheadIsNotTwo(buf, ix + 1);
    AlikeJoins(look, NextLink(p, ix));
  }

  lemma AheadIsNotTwo(buf: seq<nat>, i: nat)
    requires i <= |buf| && forall k :: i <= k < |buf| ==> Nominal(buf[k])
    ensures var a := Relevant(buf, i); a < |buf| ==> Link(buf[a]) % 4 != 2
  {
    var a := Relevant(buf, i);
    if a < |buf| {
      NotTwo(buf[a]);
    }
  }

  lemma TailRelevant(buf: seq<nat>, ix: nat)
    requires ix < |buf|
    ensures ix + Relevant(buf[ix..], 1) == Relevant(buf, ix + 1)
  {
    var s := buf[ix..];
    var a := Relevant(s, 1);
    forall k | ix + 1 <= k < ix + a ensures IrrelevantUnit(buf[k]) {
      assert buf[k] == s[k - ix];
    }
    RelevantUnique(buf, ix + 1, ix + a);
  }

  lemma NoPairAhead(buf: seq<nat>, ix: nat)
    requires ix < |buf| && buf[ix] == Lam && !Pair(buf[ix..])
    ensures NoAlefNext(buf, ix + 1)
  {
    TailRelevant(buf, ix);
    hide Ligature;
  }

  /** The lam of a pair. */
  lemma LamStep(p: seq<nat>, buf: seq<nat>, ix: nat, last: nat, next: nat, y: nat)
    requires Closed(p, buf, ix, last, next) && ix < |buf| && Pair(buf[ix..])
    ensures Relevant(buf, ix + 1) < |buf|
    ensures Open(p, buf[ix := y], ix + 1, ix, Link(Lam), last, Link(buf[Relevant(buf, ix + 1)]))
  {
    TailRelevant(buf, ix);
    var buf' := buf[ix := y];
    var a := Relevant(buf, ix + 1);
    assert buf'[ix + 1..] == buf[ix + 1..];
    RelevantSame(buf, buf', ix + 1);
    PairLeft(p, buf, ix, y);
    hide Left, LeftInPair, Link, Ligature, Pair;
  }

  lemma PairLeft(p: seq<nat>, buf: seq<nat>, ix: nat, y: nat)
    requires ix < |p| == |buf| && Left(p, buf, ix) && Pair(buf[ix..])
    ensures var a := Relevant(buf, ix + 1);
            && ix + 1 <= a < |buf| && Ligature(buf[a]) != 0 && p[ix] == Ligature(buf[a])
            && LeftInPair(p, buf[ix := y], ix + 1, a)
  {
    hide Paired, Ligature, Pair, Relevant, PlainMarks, LeftInPair;
    TailRelevant(buf, ix);
    PairIn(buf[ix..]);
    PairAlef(buf[ix..]);
    PairedUnfolds(buf[ix..]);
    var j: nat :| p[ix..] == Paired(buf[ix..]) + Spaces(j);
    PairPieces(p, buf, ix, y, Relevant(buf[ix..], 1), j);
  }

  lemma PairAlef(s: seq<nat>)
    requires s != [] && Pair(s)
    ensures 1 <= Relevant(s, 1) < |s| && Ligature(s[Relevant(s, 1)]) != 0
  {}

  lemma PairPieces(p: seq<nat>, buf: seq<nat>, ix: nat, y: nat, a: nat, j: nat)
    requires ix < |p| == |buf| && 1 <= a < |buf| - ix
    requires var s := buf[ix..];
             && p[ix..] == Paired(s) + Spaces(j)
             && Paired(s) == [Ligature(s[a])] + PlainMarks(s[1..a]) + Paired(s[a + 1..])
    ensures p[ix] == Ligature(buf[ix + a])
    ensures LeftInPair(p, buf[ix := y], ix + 1, ix + a)
  {
    hide Paired, Ligature, PlainMarks;
    var s := buf[ix..];
    assert p[ix] == p[ix..][0];
    PairSlices(buf, ix, y, a);
    var u := PlainMarks(s[1..a]) + Paired(s[a + 1..]) + Spaces(j);
    assert p[ix..] == [Ligature(s[a])] + u;
    assert p[ix + 1..] == p[ix..][1..] == u;
  }

  lemma PairSlices(buf: seq<nat>, ix: nat, y: nat, a: nat)
    requires ix < |buf| && 1 <= a < |buf| - ix
    ensures buf[ix..][1..a] == buf[ix := y][ix + 1..ix + a]
    ensures buf[ix..][a + 1..] == buf[ix := y][ix + a + 1..] && buf[ix..][a] == buf[ix + a]
  {}

  /** A mark between the lam and the alef. */
  lemma PairMarkStep(p: seq<nat>, buf: seq<nat>, ix: nat, c: nat, last: nat, prev: nat, next: nat)
    requires Open(p, buf, ix, c, last, prev, next) && IrrelevantUnit(buf[ix])
    ensures var y := if IsMark(buf[ix]) then MarkForm(buf[ix], next, last) else buf[ix];
            y == PlainMark(buf[ix]) && Open(p, buf[ix := y], ix + 1, c, last, prev, next)
  {
    hide Link, Ligature, ShownAs, LastLink, LeftInPair;
    var x, y := buf[ix], PlainMark(buf[ix]);
    var a := Relevant(buf, ix);
    AlefFollowsLam(buf[a]);
    assert a > ix && Relevant(buf, ix + 1) == a;
    assert buf[ix := y][ix + 1..] == buf[ix + 1..];
    RelevantSame(buf, buf[ix := y], ix + 1);
    LeftInPairStep(p, buf, ix, a);
    assert Minor(y);
  }

  lemma LeftInPairStep(p: seq<nat>, buf: seq<nat>, ix: nat, a: nat)
    requires ix < a < |buf| == |p| && LeftInPair(p, buf, ix, a)
    ensures p[ix] == PlainMark(buf[ix]) && LeftInPair(p, buf[ix := p[ix]], ix + 1, a)
  {
    hide Paired, PlainMark;
    var j: nat :| p[ix..] == PlainMarks(buf[ix..a]) + Paired(buf[a + 1..]) + Spaces(j);
    assert p[ix] == p[ix..][0] == PlainMarks(buf[ix..a])[0];
    assert buf[ix := p[ix]][a + 1..] == buf[a + 1..];
    assert PlainMarks(buf[ix..a])[1..] == PlainMarks(buf[ix := p[ix]][ix + 1..a]);
    assert p[ix + 1..] == p[ix..][1..];
  }

  lemma AlefFollowsLam(x: nat)
    requires Ligature(x) != 0
    ensures IsLam(Link(Lam)) && IsAlef(Link(x)) && HasShapes(Link(x))
  {
    LinkFacts(x);
  }

  /** The alef of a pair: the ligature stands at c, the alef is gone. */
  lemma AlefStep(p: seq<nat>, buf: seq<nat>, ix: nat, c: nat, last: nat, prev: nat, next: nat, look: nat)
    requires Open(p, buf, ix, c, last, prev, next) && !IrrelevantUnit(buf[ix])
    requires forall k :: ix < k < |buf| ==> Nominal(buf[k])
    requires var a := Relevant(buf, ix + 1); look == if a < |buf| then Link(buf[a]) else 0
    requires prev % 4 != 2
    ensures Ligature(buf[ix]) != 0
    ensures var link := Link(Ligature(buf[ix]));
            Closed(p, Dropped(buf[c := Form(look, prev, link)], ix), c + 1, link, look)
  {
    hide Link, Ligature, Form, ShownAs, NextLink, Left, LeftInPair, Nominal, Minor;
    var w := Ligature(buf[ix]);
    assert Relevant(buf, ix) == ix;
    LigatureLinks(buf[ix]);
    AheadIsNotTwo(buf, ix + 1);
    var y := Form(look, prev, Link(w));
    LetterShown(p, c, prev, look);
    LetterMovesOn(p, c);
    MergedLeft(p, buf, ix, c, y, look);
    var d := Dropped(buf[c := y], ix);
    assert |d| == |buf| && d[c] == y && forall i :: 0 <= i < c ==> d[i] == buf[i];
    hide Dropped;
  }

  lemma {:induction false} BehindPair(marks: seq<nat>, rest: seq<nat>)
    requires forall k :: 0 <= k < |marks| ==> !Solid(marks[k]) && marks[k] != Lam
    ensures FirstLink(marks + rest) == FirstLink(rest)
    ensures Paired(marks + rest) == marks + Paired(rest)
  {
    if marks == [] {
      assert marks + rest == rest && marks + Paired(rest) == Paired(rest);
    } else {
      var s := marks + rest;
      assert s[0] == marks[0] && s[1..] == marks[1..] + rest;
      PairedHead(s);
      hide Paired, Solid;
      BehindPair(marks[1..], rest);
      assert [marks[0]] + (marks[1..] + Paired(rest)) == marks + Paired(rest);
    }
  }

  lemma {:induction false} PairedSpace(s: seq<nat>)
    ensures Paired(s + [Space]) == Paired(s) + [Space]
    decreases |s|
  {
    hide Pair, Paired, Relevant, PlainMarks;
    if s == [] {
      NonePaired();
      assert s + [Space] == [Space];
    } else {
      PairSpace(s);
      PairIn(s);
      PairedUnfolds(s);
      PairedUnfolds(s + [Space]);
      if Pair(s) {
        var a := Relevant(s, 1);
        PieceSpace(s, a);
        PairedSpace(s[a + 1..]);
      } else {
        assert (s + [Space])[1..] == s[1..] + [Space];
        PairedSpace(s[1..]);
      }
    }
  }

  lemma NonePaired()
    ensures Paired([]) == [] && Paired([Space]) == [Space]
  {
    assert [Space][1..] == [];
  }

  lemma PairedUnfolds(s: seq<nat>)
    requires s != []
    ensures Paired(s) == if Pair(s)
                         then [Ligature(s[Relevant(s, 1)])] + PlainMarks(s[1..Relevant(s, 1)]) +
                              Paired(s[Relevant(s, 1) + 1..])
                         else [s[0]] + Paired(s[1..])
  {}

  lemma PlainIsNotSolid(x: nat)
    requires Minor(x)
    ensures !Solid(x) && x != Lam
  {}

  /** After the merge the marks of the pair and the rest of the text are left, and a space. */
  lemma MergedLeft(p: seq<nat>, buf: seq<nat>, ix: nat, c: nat, y: nat, look: nat)
    requires c < ix < |p| == |buf| && LeftInPair(p, buf, ix, ix)
    requires forall k :: c < k < ix ==> buf[k] == p[k] && Minor(buf[k])
    requires forall k :: ix < k < |buf| ==> Nominal(buf[k])
    requires var a := Relevant(buf, ix + 1); look == if a < |buf| then Link(buf[a]) else 0
    ensures Left(p, Dropped(buf[c := y], ix), c + 1)
    ensures Alike(look, NextLink(p, c))
  {
    hide Paired, Link, Nominal, Solid, Alike, IrrelevantUnit;
    var marks, rest := buf[c + 1..ix], buf[ix + 1..];
    var j := SpacesLeft(p, buf, ix, c);
    forall k | 0 <= k < |marks| ensures !Solid(marks[k]) && marks[k] != Lam {
      PlainIsNotSolid(buf[c + 1 + k]);
    }
    BehindPair(marks, Paired(rest) + Spaces(j));
    MergedAhead(buf, ix + 1, j);
    BehindPair(marks, rest + [Space]);
    PairedSpace(rest);
    MergedPieces(buf, c, ix, y);
    hide Minor, Relevant;
    assert Spaces(j) == [Space] + Spaces(j - 1);
    assert p[c + 1..] == Paired(Dropped(buf[c := y], ix)[c + 1..]) + Spaces(j - 1);
  }

  lemma SpacesLeft(p: seq<nat>, buf: seq<nat>, ix: nat, c: nat) returns (j: nat)
    requires c < ix < |p| == |buf| && LeftInPair(p, buf, ix, ix)
    requires forall k :: c < k < ix ==> buf[k] == p[k]
    ensures j >= 1 && p[c + 1..] == buf[c + 1..ix] + (Paired(buf[ix + 1..]) + Spaces(j))
  {
    hide Paired;
    j :| p[ix..] == PlainMarks(buf[ix..ix]) + Paired(buf[ix + 1..]) + Spaces(j);
    assert p[c + 1..] == p[c + 1..ix] + p[ix..] && p[c + 1..ix] == buf[c + 1..ix];
    assert p[ix..] == Paired(buf[ix + 1..]) + Spaces(j);
  }

  /** The text does not end in a stretch of marks that goes back to the place that stands for "no such unit". */
  predicate NotCut(buf: seq<nat>, ix: nat, beyond: int)
  {
    ix <= beyond < |buf| ==> exists k :: beyond <= k < |buf| && !IrrelevantUnit(buf[k])
  }

  /** What is known of the places before ix. */
  ghost predicate Following(p: seq<nat>, m: Machine, ix: nat)
  {
    && m.prev % 4 != 2 && m.last % 4 != 2 && m.next % 4 != 2
    && (Closed(p, m.buf, ix, m.last, m.next) || Open(p, m.buf, ix, m.lastPos, m.last, m.prev, m.next))
  }

  lemma LookSees(m: Machine)
    requires InRange(m) && m.nx.Unknown?
    ensures var l := Look(m); var a := Relevant(m.buf, m.ix + 1);
            l == m.(nx := l.nx, next := l.next) && l.next == if a < |m.buf| then Link(m.buf[a]) else 0
  {
    hide Look, Link, IrrelevantUnit;
    LookFacts(m);
    LookRelevant(m);
    var l := Look(m);
    RelevantUnique(m.buf, m.ix + 1, if l.nx.At? then l.nx.pos else |m.buf|);
  }

  lemma FollowsPlain(p: seq<nat>, m: Machine)
    requires Structure(m) && m.ix < |m.buf| && m.curr == Link(m.buf[m.ix]) && Following(p, m, m.ix)
    requires !HasShapes(m.curr) && !Irrelevant(m.curr)
    ensures Following(p, Noted(Shaped(m)), m.ix + 1)
  {
    var x := m.buf[m.ix];
    assert Nominal(x) || IsMarkForm(x);
    LinkFacts(x);
    PlainIsNoLam(x);
    hide Link, Closed, Ligature, Structure, LeftInPair, ShownAs;
    assert !Open(p, m.buf, m.ix, m.lastPos, m.last, m.prev, m.next);
    PlainStep(p, m.buf, m.ix, m.last, m.next);
  }

  lemma FollowsMark(p: seq<nat>, m: Machine)
    requires InRange(m) && m.curr == Link(m.buf[m.ix]) && Following(p, m, m.ix)
    requires Irrelevant(m.curr)
    ensures Following(p, Noted(Shaped(m)), m.ix + 1)
  {
    hide Link, Closed, Open, MarkForm, Noted, Shaped, IrrelevantUnit;
    LinkFacts(m.buf[m.ix]);
    MarkNoted(m);
    if Closed(p, m.buf, m.ix, m.last, m.next) {
      MarkStep(p, m.buf, m.ix, m.last, m.next);
    } else {
      PairMarkStep(p, m.buf, m.ix, m.lastPos, m.last, m.prev, m.next);
    }
  }

  lemma MarkNoted(m: Machine)
    requires InRange(m) && m.curr == 4
    ensures var x := m.buf[m.ix];
            Noted(Shaped(m)) == m.(buf := m.buf[m.ix := if IsMark(x) then MarkForm(x, m.next, m.last) else x])
  {
    hide MarkForm;
    assert m.buf[m.ix := m.buf[m.ix]] == m.buf;
  }

  /** A letter, unlike an alef after a lam. */
  lemma FollowsLetter(p: seq<nat>, m: Machine)
    requires Structure(m) && m.ix < |m.buf| && m.curr == Link(m.buf[m.ix]) && Following(p, m, m.ix)
    requires HasShapes(m.curr) && Closed(p, m.buf, m.ix, m.last, m.next)
    ensures !(IsAlef(m.curr) && IsLam(m.last))
    ensures Following(p, Noted(Shaped(m)), m.ix + 1)
  {
    hide Link, Form, Look, Shaped, Noted, Structure, Closed, Open, Irrelevant, HasShapes, IsLam, IsAlef, Pair, Nominal;
    ShapedUnit(m);
    var x := m.buf[m.ix];
    LetterFacts'(x);
    NoAlefHere(p, m);
    NominalAfter(m);
    LookSees(m);
    var l := Look(m);
    var y := Form(l.next, m.last, m.curr);
    LetterShaped(m, l, y);
    AheadIsNotTwo(m.buf, m.ix + 1);
    if Pair(m.buf[m.ix..]) {
      PairBegins(m.buf, m.ix);
      LamStep(p, m.buf, m.ix, m.last, m.next, y);
    } else {
      LetterStep(p, m.buf, m.ix, m.last, m.next, l.next);
    }
  }

  lemma PairBegins(buf: seq<nat>, ix: nat)
    requires ix < |buf| && Pair(buf[ix..])
    ensures buf[ix] == Lam
  {}

  lemma NoAlefHere(p: seq<nat>, m: Machine)
    requires InRange(m) && m.curr == Link(m.buf[m.ix]) && HasShapes(m.curr) && !IrrelevantUnit(m.buf[m.ix])
    requires Closed(p, m.buf, m.ix, m.last, m.next)
    ensures !(IsAlef(m.curr) && IsLam(m.last))
  {
    LinkFacts(m.buf[m.ix]);
    hide Link, ShownAs, Left, LastLink, LookedAhead, Ligature;
    assert Relevant(m.buf, m.ix) == m.ix;
  }

  /** The alef of a pair. */
  lemma FollowsAlef(p: seq<nat>, m: Machine, beyond: int)
    requires Structure(m) && m.ix < |m.buf| && m.curr == Link(m.buf[m.ix]) && Following(p, m, m.ix)
    requires HasShapes(m.curr) && Open(p, m.buf, m.ix, m.lastPos, m.last, m.prev, m.next)
    ensures IsAlef(m.curr) && IsLam(m.last)
    ensures Following(p, Noted(Shaped(m)), m.lastPos + 1) && Noted(Shaped(m)).ix == m.lastPos
    ensures NotCut(Noted(Shaped(m)).buf, m.lastPos + 1, beyond)
  {
    hide Link, Form, Look, Shaped, Noted, Structure, Closed, Ligature, Nominal, LeftInPair, ShownAs, LastLink, Dropped;
    ShapedUnit(m);
    var x := m.buf[m.ix];
    LetterFacts'(x);
    assert Relevant(m.buf, m.ix) == m.ix;
    AlefFollowsLam(x);
    NominalAfter(m);
    LookSees(m);
    var l := Look(m);
    var w := Ligature(x);
    var y := Form(l.next, m.prev, Link(w));
    AheadIsNotTwo(m.buf, m.ix + 1);
    LigatureLinks(x);
    AlefShaped(m, l, w, y);
    hide Relevant;
    AlefStep(p, m.buf, m.ix, m.lastPos, m.last, m.prev, m.next, l.next);
    SpaceAtEnd(m.buf[m.lastPos := y], m.ix, m.lastPos + 1, beyond);
  }

  /** The machine, with its current unit known and the rule followed so far. */
  ghost predicate OnCourse(p: seq<nat>, text: seq<nat>, m: Machine, beyond: int)
  {
    && Structure(m) && Padded(Total(m.buf, Settled(m)), text)
    && Following(p, m, m.ix) && NotCut(m.buf, m.ix, beyond)
    && (m.ix < |m.buf| ==> m.curr == Link(m.buf[m.ix]))
  }

  lemma NotedFollows(p: seq<nat>, m: Machine, beyond: int)
    requires Structure(m) && m.ix < |m.buf| && m.curr == Link(m.buf[m.ix]) && Following(p, m, m.ix)
    requires NotCut(m.buf, m.ix, beyond)
    ensures var m' := Noted(Shaped(m));
            Following(p, m', m'.ix + 1) && NotCut(m'.buf, m'.ix + 1, beyond)
  {
    hide Structure, Link, Noted, Shaped, Closed, NotCut, HasShapes, IsAlef, IsLam, Irrelevant, Minor, ShownAs,
         LeftInPair;
    InStructure(m);
    if !HasShapes(m.curr) && !Irrelevant(m.curr) {
      FollowsPlain(p, m);
      SmallChange(m, beyond);
    } else if !HasShapes(m.curr) {
      FollowsMark(p, m);
      SmallChange(m, beyond);
    } else if Closed(p, m.buf, m.ix, m.last, m.next) {
      FollowsLetter(p, m);
      SmallChange(m, beyond);
    } else {
      FollowsAlef(p, m, beyond);
    }
  }

  /** Only the current unit changes. */
  lemma SmallChange(m: Machine, beyond: int)
    requires InRange(m) && !(HasShapes(m.curr) && IsAlef(m.curr) && IsLam(m.last)) && NotCut(m.buf, m.ix, beyond)
    ensures var m' := Noted(Shaped(m));
            m'.ix == m.ix && NotCut(m'.buf, m.ix + 1, beyond)
  {
    hide Link, Form, MarkForm, Seek, IrrelevantUnit;
    var m' := Noted(Shaped(m));
    assert forall k :: m.ix < k < |m.buf| ==> m'.buf[k] == m.buf[k];
  }

  lemma SpaceAtEnd(buf: seq<nat>, i: nat, ix: nat, beyond: int)
    requires i < |buf|
    ensures NotCut(Dropped(buf, i), ix, beyond)
  {
    assert Dropped(buf, i)[|buf| - 1] == Space && !IrrelevantUnit(Space);
  }

  lemma MovesOnCourse(p: seq<nat>, m: Machine, beyond: int)
    requires Ready(m) && Following(p, m, m.ix + 1) && NotCut(m.buf, m.ix + 1, beyond)
    ensures var m' := Moved(m, beyond);
            && Following(p, m', m'.ix) && NotCut(m'.buf, m'.ix, beyond)
            && (m'.ix < |m'.buf| ==> m'.curr == Link(m'.buf[m'.ix]))
  {
    hide Link, Closed, Open, IrrelevantUnit, Unread, Waiting;
  }

  lemma StaysOnCourse(p: seq<nat>, text: seq<nat>, m: Machine, beyond: int)
    requires OnCourse(p, text, m, beyond) && m.ix < |m.buf|
    ensures OnCourse(p, text, Step(m, beyond), beyond)
  {
    hide Structure, Padded, Total, Following, NotCut, Link, Ready, Shaped, Noted, Moved;
    InStructure(m);
    StepReads(m, text);
    StepKeeps(m, text, beyond);
    NotedFollows(p, m, beyond);
    MovesOnCourse(p, Noted(Shaped(m)), beyond);
  }

  lemma {:induction false} RunFollows(p: seq<nat>, text: seq<nat>, m: Machine, beyond: int)
    requires OnCourse(p, text, m, beyond)
    ensures |Run(m, beyond)| == |p| && forall i :: 0 <= i < |p| ==> ShownAs(p, i, Run(m, beyond)[i])
    decreases Alefs(m.buf), |m.buf| - m.ix
  {
    OnCourseInRange(p, text, m, beyond);
    hide OnCourse, Alefs, Step, ShownAs;
    if m.ix == |m.buf| {
      EndOfCourse(p, text, m, beyond);
    } else {
      StepProgress(m, beyond);
      StaysOnCourse(p, text, m, beyond);
      RunFollows(p, text, Step(m, beyond), beyond);
    }
  }

  lemma OnCourseInRange(p: seq<nat>, text: seq<nat>, m: Machine, beyond: int)
    requires OnCourse(p, text, m, beyond)
    ensures m.ix <= |m.buf| && (m.ix < |m.buf| ==> InRange(m))
  {
    hide Following, Total, Padded, Link;
  }

  lemma EndOfCourse(p: seq<nat>, text: seq<nat>, m: Machine, beyond: int)
    requires OnCourse(p, text, m, beyond) && m.ix == |m.buf|
    ensures |m.buf| == |p| && forall i :: 0 <= i < |p| ==> ShownAs(p, i, m.buf[i])
  {
    hide ShownAs, Structure, Total, Padded, Left, LeftInPair, Link, LastLink, LookedAhead;
  }

  /** Every unit of shaped nominal text is shown by the rule. */
  lemma FormsByRule(text: seq<nat>, beyond: int)
    requires AllNominal(text) && NotCut(text, 0, beyond)
    ensures |ShapedText(text, beyond)| == |text|
    ensures forall i :: 0 <= i < |text| ==> ShownAs(MergedText(text), i, ShapedText(text, beyond)[i])
  {
    hide ShownAs, NotCut;
    if text != [] {
      BeginKeeps(text);
      var p := MergedText(text);
      assert p[0..] == p && text[0..] == text;
      assert Left(p, text, 0);
      BeginsOnCourse(p, text, beyond);
      RunFollows(p, text, Begin(text), beyond);
    }
  }

  lemma BeginsOnCourse(p: seq<nat>, text: seq<nat>, beyond: int)
    requires text != [] && |p| == |text| && Left(p, text, 0) && NotCut(text, 0, beyond)
    requires var m := Begin(text); Structure(m) && Padded(Total(m.buf, Settled(m)), text)
    ensures OnCourse(p, text, Begin(text), beyond)
  {
    hide Link, Left, Structure, Total, Padded, NotCut;
    assert Closed(p, text, 0, 0, 0);
  }
}
