/** Back from presentation forms to letters: a ligature becomes lam and alef again, taking a space from the end of
    the buffer, or from its beginning for left-to-right text; then every form becomes its letter. */
module ArabicDeshaping {

  import opened ArabicTables
  import opened ArabicShaping
  import opened ArabicMeaning
  import opened ArabicRoundTrip
  import opened ArabicPasses

  function Expand(buf: seq<nat>, i: nat, rtl: bool): seq<nat>
    requires i < |buf| && IsLigature(buf[i]) && (if rtl then buf[|buf| - 1] == Space else buf[0] == Space)
  {
    if rtl then buf[..i] + [Lam, AlefOf(buf[i])] + buf[i + 1..|buf| - 1]
    else buf[1..i] + [Lam, AlefOf(buf[i])] + buf[i + 1..]
  }

  function ExpandFrom(buf: seq<nat>, count: nat, rtl: bool): (r: seq<nat>)
    requires count <= |buf|
    ensures |r| == |buf|
    decreases |buf| - count
  {
    if count == |buf| then buf
    else if IsLigature(buf[count]) && (if rtl then buf[|buf| - 1] == Space else buf[0] == Space)
    then ExpandFrom(Expand(buf, count, rtl), count + 1, rtl)
    else ExpandFrom(buf, count + 1, rtl)
  }

  function UnitLetter(y: nat): nat { if IsForm(y) then Letter(y) else y }

  function UnitLetters(buf: seq<nat>): (r: seq<nat>)
    ensures |r| == |buf|
  {
    seq(|buf|, i requires 0 <= i < |buf| => UnitLetter(buf[i]))
  }

  /** One ligature becomes lam and alef. */
  method ExpandInPlace(buffer: array<nat>, count: nat, rtl: bool)
    requires count < buffer.Length && IsLigature(buffer[count])
    requires if rtl then buffer[buffer.Length - 1] == Space else buffer[0] == Space
    modifies buffer
    ensures buffer[..] == Expand(old(buffer[..]), count, rtl)
  {
    if rtl {
      ExpandAtEnd(buffer, count);
    } else {
      ExpandAtBegin(buffer, count);
    }
  }

  method ExpandAtEnd(buffer: array<nat>, count: nat)
    requires count < buffer.Length && IsLigature(buffer[count]) && buffer[buffer.Length - 1] == Space
    modifies buffer
    ensures buffer[..] == Expand(old(buffer[..]), count, true)
  {
    hide AlefOf, Expand;
    var alef := AlefOf(buffer[count]);
    var h := buffer.Length - 1;
    while h > count
      invariant count <= h < buffer.Length
      invariant forall k :: 0 <= k <= h ==> buffer[k] == old(buffer[k])
      invariant forall k :: h < k < buffer.Length ==> buffer[k] == old(buffer[k - 1])
    {
      buffer[h] := buffer[h - 1];
      h := h - 1;
    }
    buffer[count + 1] := alef;
    buffer[count] := Lam;
    ExpandedAtEnd(old(buffer[..]), buffer[..], count);
  }

  lemma ExpandedAtEnd(s: seq<nat>, t: seq<nat>, i: nat)
    requires i < |s| && IsLigature(s[i]) && s[|s| - 1] == Space && |t| == |s| && i < |s| - 1
    requires (forall k :: 0 <= k < i ==> t[k] == s[k]) && t[i] == Lam && t[i + 1] == AlefOf(s[i])
    requires forall k :: i + 1 < k < |s| ==> t[k] == s[k - 1]
    ensures t == Expand(s, i, true)
  {
    hide AlefOf;
  }

  method ExpandAtBegin(buffer: array<nat>, count: nat)
    requires count < buffer.Length && IsLigature(buffer[count]) && buffer[0] == Space
    modifies buffer
    ensures buffer[..] == Expand(old(buffer[..]), count, false)
  {
    hide AlefOf, Expand;
    var alef := AlefOf(buffer[count]);
    var h := 0;
    while h < count
      invariant 0 <= h <= count
      invariant forall k :: h <= k < buffer.Length ==> buffer[k] == old(buffer[k])
      invariant forall k :: 0 <= k < h ==> buffer[k] == old(buffer[k + 1])
    {
      buffer[h] := buffer[h + 1];
      h := h + 1;
    }
    buffer[count] := alef;
    buffer[count - 1] := Lam;
    ExpandedAtBegin(old(buffer[..]), buffer[..], count);
  }

  lemma ExpandedAtBegin(s: seq<nat>, t: seq<nat>, i: nat)
    requires 0 < i < |s| && IsLigature(s[i]) && s[0] == Space && |t| == |s|
    requires (forall k :: 0 <= k < i - 1 ==> t[k] == s[k + 1]) && t[i - 1] == Lam && t[i] == AlefOf(s[i])
    requires forall k :: i < k < |s| ==> t[k] == s[k]
    ensures t == Expand(s, i, false)
  {
    hide AlefOf;
  }

  method DeshapeLamAlefAuto(buffer: array<nat>, rtl: bool)
    modifies buffer
    ensures buffer[..] == ExpandFrom(old(buffer[..]), 0, rtl)
  {
    var length := buffer.Length;
    var count := 0;
    while count < length
      invariant 0 <= count <= length
      invariant ExpandFrom(buffer[..], count, rtl) == ExpandFrom(old(buffer[..]), 0, rtl)
    {
      hide Expand, AlefOf;
      if IsLigature(buffer[count]) && (if rtl then buffer[length - 1] == Space else buffer[0] == Space) {
        ExpandInPlace(buffer, count, rtl);
      }
      count := count + 1;
    }
  }

  /** The part of the shaping routine for output in logical order. */
  method ToLetters(str: array<nat>)
    modifies str
    ensures str[..] == UnitLetters(old(str[..]))
  {
    hide Letter;
    var i := 0;
    while i < str.Length
      invariant 0 <= i <= str.Length
      invariant forall k :: 0 <= k < i ==> str[k] == UnitLetter(old(str[k]))
      invariant forall k :: i <= k < str.Length ==> str[k] == old(str[k])
    {
      if IsForm(str[i]) {
        str[i] := Letter(str[i]);
      }
      i := i + 1;
    }
  }

  /** Shaping for visual text, with the passes that always run. */
  method ShapeText(str: array<nat>, rtl: bool)
    modifies str
    ensures InOrder(str[..], rtl) ==
            Passed(ShapedText(old(InOrder(str[..], rtl)), BeyondPlace(str.Length, rtl)))
  {
    hide SeenPass, YehPass, InOrder;
    ShapingRoutine(str, rtl);
    ShapeSeenNear(str, rtl);
    ShapeYehHamzaTwoCellNear(str, rtl);
  }

  /** Deshaping for text in logical order. */
  function Deshaped(z: seq<nat>, rtl: bool): (r: seq<nat>)
    ensures |r| == |z|
  {
    UnitLetters(ExpandFrom(UnYeh(UnSeen(z)), 0, rtl))
  }

  method DeshapeText(str: array<nat>, rtl: bool)
    modifies str
    ensures str[..] == Deshaped(old(str[..]), rtl)
  {
    hide UnSeen, UnYeh, UnitLetters;
    DeshapeSeenNear(str);
    DeshapeYehHamzaTwoCellNear(str);
    DeshapeLamAlefAuto(str, rtl);
    ToLetters(str);
  }

  // ------------------------------------------------------------------ expanding keeps the reading

  function Ligatures(buf: seq<nat>): nat
  {
    if buf == [] then 0 else (if IsLigature(buf[0]) then 1 else 0) + Ligatures(buf[1..])
  }

  lemma {:induction false} MeaningLength(buf: seq<nat>)
    ensures |Meaning(buf)| == |buf| + Ligatures(buf)
  {
    if buf != [] {
      hide Letter;
      MeaningLength(buf[1..]);
    }
  }

  lemma {:induction false} LigaturesConcat(a: seq<nat>, b: seq<nat>)
    ensures Ligatures(a + b) == Ligatures(a) + Ligatures(b)
  {
    if a == [] {
      assert a + b == b;
    } else {
      assert (a + b)[1..] == a[1..] + b;
      LigaturesConcat(a[1..], b);
    }
  }

  lemma {:induction false} NoLigatures(buf: seq<nat>)
    requires Ligatures(buf) == 0
    ensures forall i :: 0 <= i < |buf| ==> Single(buf[i])
  {
    if buf != [] {
      NoLigatures(buf[1..]);
      assert forall i :: 1 <= i < |buf| ==> buf[i] == buf[1..][i - 1];
    }
  }

  /** The letter of a reading. */
  function Plain(v: nat): nat
  {
    if v == EndYeh then YehHamza else if v == HamzaTag then 0x0621 else if v >= 0x20000 then v - 0x20000 else v
  }

  function Plains(t: seq<nat>): (r: seq<nat>)
    ensures |r| == |t|
  {
    seq(|t|, i requires 0 <= i < |t| => Plain(t[i]))
  }

  lemma PlainsConcat(a: seq<nat>, b: seq<nat>)
    ensures Plains(a + b) == Plains(a) + Plains(b)
  {}

  lemma PlainBase(y: nat)
    requires y < 0x10000 && Single(y)
    ensures Plain(Base(y)) == UnitLetter(y)
  {
    YehForms();
    LettersAreUnits(y);
    hide Letter;
  }

  lemma LettersAreUnits(y: nat)
    ensures Letter(y) < 0x10000
  {}

  /** Without ligatures, the letters of the units are the letters of the reading. */
  lemma PlainUnits(buf: seq<nat>)
    requires Units(buf) && Ligatures(buf) == 0
    ensures Plains(Meaning(buf)) == UnitLetters(buf)
  {
    NoLigatures(buf);
    MeaningPointwise(buf);
    hide Meaning, Base, UnitLetter, Plain;
    forall i | 0 <= i < |buf| ensures Plains(Meaning(buf))[i] == UnitLetters(buf)[i] {
      PlainBase(buf[i]);
    }
  }

  /** The spaces that expanding needs: at the end, or for left-to-right text at the beginning. */
  predicate Padding(buf: seq<nat>, k: nat, rtl: bool)
  {
    k <= |buf| && (if rtl then forall i :: |buf| - k <= i < |buf| ==> buf[i] == Space
                   else forall i :: 0 <= i < k ==> buf[i] == Space)
  }

  function WithSpaces(t: seq<nat>, k: nat, rtl: bool): seq<nat> { if rtl then t + Spaces(k) else Spaces(k) + t }

  lemma MeaningThree(a: seq<nat>, b: seq<nat>, c: seq<nat>)
    ensures Meaning(a + b + c) == Meaning(a) + Meaning(b) + Meaning(c)
  {
    hide Meaning;
    MeaningConcat(a + b, c);
    MeaningConcat(a, b);
  }

  lemma SpaceReads()
    ensures Unshaped(Space) == [Space] && Plain(Space) == Space
  {}

  lemma PairReads(y: nat)
    requires IsLigature(y)
    ensures Plains(Meaning([Lam, AlefOf(y)])) == Plains(Unshaped(y)) == [Lam, AlefOf(y)]
  {
    var alef := AlefOf(y);
    assert [Lam, alef] == [Lam] + [alef];
    MeaningConcat([Lam], [alef]);
    MeaningOne(Lam);
    MeaningOne(alef);
  }

  lemma EndPieces(buf: seq<nat>, i: nat)
    requires i < |buf| && IsLigature(buf[i]) && buf[|buf| - 1] == Space
    ensures i < |buf| - 1
    ensures buf == buf[..i] + [buf[i]] + (buf[i + 1..|buf| - 1] + [Space])
    ensures Expand(buf, i, true) == buf[..i] + [Lam, AlefOf(buf[i])] + buf[i + 1..|buf| - 1]
  {}

  lemma BeginPieces(buf: seq<nat>, i: nat)
    requires i < |buf| && IsLigature(buf[i]) && buf[0] == Space
    ensures i > 0
    ensures buf == ([Space] + buf[1..i]) + [buf[i]] + buf[i + 1..]
    ensures Expand(buf, i, false) == buf[1..i] + [Lam, AlefOf(buf[i])] + buf[i + 1..]
  {}

  /** Expanding a ligature keeps the letters, less a space. */
  lemma ExpandReads(buf: seq<nat>, i: nat, rtl: bool)
    requires i < |buf| && IsLigature(buf[i]) && (if rtl then buf[|buf| - 1] == Space else buf[0] == Space)
    ensures Plains(Meaning(buf)) == WithSpaces(Plains(Meaning(Expand(buf, i, rtl))), 1, rtl)
  {
    hide Meaning, Unshaped, Expand, AlefOf, Plains, Plain;
    if rtl {
      ExpandReadsAtEnd(buf, i);
    } else {
      ExpandReadsAtBegin(buf, i);
    }
  }

  lemma ExpandReadsAtEnd(buf: seq<nat>, i: nat)
    requires i < |buf| && IsLigature(buf[i]) && buf[|buf| - 1] == Space
    ensures Plains(Meaning(buf)) == WithSpaces(Plains(Meaning(Expand(buf, i, true))), 1, true)
  {
    hide Meaning, Unshaped, Expand, AlefOf, Plains, Plain;
    EndPieces(buf, i);
    PairReads(buf[i]);
    var a, y, c := buf[..i], buf[i], buf[i + 1..|buf| - 1];
    ReadParts(a, y, c + [Space], [Lam, AlefOf(y)]);
    ReadSpace(c);
    ReadPair(a, [Lam, AlefOf(y)], c);
    EndAssoc(Plains(Meaning(a)), [Lam, AlefOf(y)], Plains(Meaning(c)));
  }

  lemma EndAssoc(a: seq<nat>, b: seq<nat>, c: seq<nat>)
    ensures a + b + (c + [Space]) == WithSpaces(a + b + c, 1, true)
  {}

  lemma ExpandReadsAtBegin(buf: seq<nat>, i: nat)
    requires i < |buf| && IsLigature(buf[i]) && buf[0] == Space
    ensures Plains(Meaning(buf)) == WithSpaces(Plains(Meaning(Expand(buf, i, false))), 1, false)
  {
    hide Meaning, Unshaped, Expand, AlefOf, Plains, Plain;
    BeginPieces(buf, i);
    PairReads(buf[i]);
    var a, y, c := buf[1..i], buf[i], buf[i + 1..];
    ReadParts([Space] + a, y, c, [Lam, AlefOf(y)]);
    ReadFirstSpace(a);
    ReadPair(a, [Lam, AlefOf(y)], c);
    BeginAssoc(Plains(Meaning(a)), [Lam, AlefOf(y)], Plains(Meaning(c)));
  }

  lemma BeginAssoc(a: seq<nat>, b: seq<nat>, c: seq<nat>)
    ensures ([Space] + a) + b + c == WithSpaces(a + b + c, 1, false)
  {}

  lemma ReadPair(a: seq<nat>, pair: seq<nat>, c: seq<nat>)
    requires Plains(Meaning(pair)) == pair
    ensures Plains(Meaning(a + pair + c)) == Plains(Meaning(a)) + pair + Plains(Meaning(c))
  {
    hide Meaning, Plains;
    MeaningThree(a, pair, c);
    PlainsConcat(Meaning(a) + Meaning(pair), Meaning(c));
    PlainsConcat(Meaning(a), Meaning(pair));
  }

  lemma ReadParts(a: seq<nat>, y: nat, c: seq<nat>, pair: seq<nat>)
    requires Plains(Unshaped(y)) == pair
    ensures Plains(Meaning(a + [y] + c)) == Plains(Meaning(a)) + pair + Plains(Meaning(c))
  {
    hide Meaning, Unshaped, Plains;
    MeaningThree(a, [y], c);
    MeaningOne(y);
    PlainsConcat(Meaning(a) + Unshaped(y), Meaning(c));
    PlainsConcat(Meaning(a), Unshaped(y));
  }

  lemma ReadSpace(c: seq<nat>)
    ensures Plains(Meaning(c + [Space])) == Plains(Meaning(c)) + [Space]
  {
    hide Meaning, Unshaped;
    MeaningConcat(c, [Space]);
    MeaningOne(Space);
    SpaceReads();
    PlainsConcat(Meaning(c), [Space]);
  }

  lemma ReadFirstSpace(c: seq<nat>)
    ensures Plains(Meaning([Space] + c)) == [Space] + Plains(Meaning(c))
  {
    hide Meaning, Unshaped;
    MeaningConcat([Space], c);
    MeaningOne(Space);
    SpaceReads();
    PlainsConcat([Space], Meaning(c));
  }

  lemma LigaturesNext(buf: seq<nat>, i: nat)
    requires i < |buf|
    ensures var one := if IsLigature(buf[i]) then 1 else 0;
            Ligatures(buf[..i + 1]) == Ligatures(buf[..i]) + one && Ligatures(buf[i..]) == one + Ligatures(buf[i + 1..])
  {
    assert buf[..i + 1] == buf[..i] + [buf[i]];
    LigaturesConcat(buf[..i], [buf[i]]);
    assert [buf[i]][1..] == [];
    assert buf[i..][1..] == buf[i + 1..];
  }

  lemma NoneInOne(x: nat)
    requires !IsLigature(x)
    ensures Ligatures([x]) == 0
  {
    assert [x][1..] == [];
  }

  /** After expanding at i: the units up to the lam are done, one ligature and one space fewer are left. */
  lemma ExpandCounts(buf: seq<nat>, i: nat, rtl: bool)
    requires i < |buf| && IsLigature(buf[i]) && Ligatures(buf[..i]) == 0 && Units(buf)
    requires Padding(buf, 1 + Ligatures(buf[i + 1..]), rtl)
    ensures if rtl then buf[|buf| - 1] == Space else buf[0] == Space
    ensures var buf' := Expand(buf, i, rtl);
            && |buf'| == |buf| && Ligatures(buf'[..i + 1]) == 0 && Units(buf')
            && Ligatures(buf'[i + 1..]) == Ligatures(buf[i + 1..]) && Padding(buf', Ligatures(buf[i + 1..]), rtl)
  {
    NoneInOne(Lam);
    NoneInOne(Space);
    NoneInOne(AlefOf(buf[i]));
    if rtl {
      CountsAtEnd(buf, i);
    } else {
      CountsAtBegin(buf, i);
    }
  }

  lemma CountsAtEnd(buf: seq<nat>, i: nat)
    requires i < |buf| && IsLigature(buf[i]) && Ligatures(buf[..i]) == 0 && Units(buf)
    requires Padding(buf, 1 + Ligatures(buf[i + 1..]), true)
    requires Ligatures([Lam]) == 0 && Ligatures([Space]) == 0 && Ligatures([AlefOf(buf[i])]) == 0
    ensures buf[|buf| - 1] == Space
    ensures var buf' := Expand(buf, i, true);
            && |buf'| == |buf| && Ligatures(buf'[..i + 1]) == 0 && Units(buf')
            && Ligatures(buf'[i + 1..]) == Ligatures(buf[i + 1..]) && Padding(buf', Ligatures(buf[i + 1..]), true)
  {
    hide Ligatures;
    var n := |buf|;
    var buf' := Expand(buf, i, true);
    var mid := buf[i + 1..n - 1];
    assert buf'[..i + 1] == buf[..i] + [Lam];
    LigaturesConcat(buf[..i], [Lam]);
    assert buf'[i + 1..] == [AlefOf(buf[i])] + mid;
    LigaturesConcat([AlefOf(buf[i])], mid);
    assert buf[i + 1..] == mid + [Space];
    LigaturesConcat(mid, [Space]);
    assert forall j :: i + 1 < j < n ==> buf'[j] == buf[j - 1];
  }

  lemma CountsAtBegin(buf: seq<nat>, i: nat)
    requires i < |buf| && IsLigature(buf[i]) && Ligatures(buf[..i]) == 0 && Units(buf)
    requires Padding(buf, 1 + Ligatures(buf[i + 1..]), false)
    requires Ligatures([Lam]) == 0 && Ligatures([Space]) == 0 && Ligatures([AlefOf(buf[i])]) == 0
    ensures buf[0] == Space
    ensures var buf' := Expand(buf, i, false);
            && |buf'| == |buf| && Ligatures(buf'[..i + 1]) == 0 && Units(buf')
            && Ligatures(buf'[i + 1..]) == Ligatures(buf[i + 1..]) && Padding(buf', Ligatures(buf[i + 1..]), false)
  {
    hide Ligatures;
    var buf' := Expand(buf, i, false);
    var front := buf[1..i];
    assert buf'[..i + 1] == front + [Lam] + [AlefOf(buf[i])];
    LigaturesConcat(front + [Lam], [AlefOf(buf[i])]);
    LigaturesConcat(front, [Lam]);
    assert buf[..i] == [Space] + front;
    LigaturesConcat([Space], front);
    assert buf'[i + 1..] == buf[i + 1..];
    assert forall j :: 0 <= j < i - 1 ==> buf'[j] == buf[j + 1];
  }

  /** With enough spaces, expanding leaves no ligature and keeps the letters. */
  lemma {:induction false} ExpandKeeps(buf: seq<nat>, count: nat, rtl: bool)
    requires count <= |buf| && Ligatures(buf[..count]) == 0 && Units(buf) && Padding(buf, Ligatures(buf[count..]), rtl)
    ensures var r := ExpandFrom(buf, count, rtl);
            && Ligatures(r) == 0 && Units(r)
            && Plains(Meaning(buf)) == WithSpaces(Plains(Meaning(r)), Ligatures(buf[count..]), rtl)
    decreases |buf| - count
  {
    hide Meaning, Plains, Expand;
    if count == |buf| {
      assert buf[..count] == buf && buf[count..] == [];
      NoSpaces(Plains(Meaning(buf)), rtl);
    } else {
      LigaturesNext(buf, count);
      if IsLigature(buf[count]) {
        ExpandReads(buf, count, rtl);
        ExpandCounts(buf, count, rtl);
        var buf' := Expand(buf, count, rtl);
        ExpandKeeps(buf', count + 1, rtl);
        OneMore(Plains(Meaning(ExpandFrom(buf, count, rtl))), Ligatures(buf[count + 1..]), rtl);
      } else {
        ExpandKeeps(buf, count + 1, rtl);
      }
    }
  }

  lemma NoSpaces(t: seq<nat>, rtl: bool)
    ensures WithSpaces(t, 0, rtl) == t
  {}

  lemma OneMore(t: seq<nat>, k: nat, rtl: bool)
    ensures WithSpaces(WithSpaces(t, k, rtl), 1, rtl) == WithSpaces(t, k + 1, rtl)
  {}
}
