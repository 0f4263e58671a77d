/** Shaping keeps the text: every step of the machine leaves what has been read, together with how the rest will
    be ordered, as it was, or adds a space; and deshaping undoes shaping. */
module ArabicRoundTrip {

  import opened ArabicTables
  import opened ArabicShaping
  import opened ArabicMeaning

  // ------------------------------------------------------------------ moving on

  /** What is known of the next unit is right. */
  predicate Looked(m: Machine)
  {
    match m.nx
    case Unknown => true
    case At(p) => m.ix < p < |m.buf| && m.next == Link(m.buf[p]) && AllIrrelevant(m.buf, m.ix + 1, p)
    case Beyond => m.ix < |m.buf| && m.next == 0 && AllIrrelevant(m.buf, m.ix + 1, |m.buf|)
  }

  /** The machine is done with the unit at ix. */
  ghost predicate Ready(m: Machine)
  {
    && m.ix < |m.buf| && m.lastPos < |m.buf|
    && Unread(m.buf, m.ix + 1) && Waiting(m.buf, m.last, m.lastPos, m.ix + 1)
    && Looked(m) && m.last % 4 != 2
  }

  lemma MovedOk(m: Machine, beyond: int)
    requires Ready(m)
    ensures Structure(Moved(m, beyond))
    ensures Moved(m, beyond).buf == m.buf
    ensures Settled(Moved(m, beyond)) == if IsLam(m.last) then m.lastPos else m.ix + 1
  {
    hide Link, LamStretch, Minor, Nominal, IsLam;
  }

  /** Where everything before is settled once the unit at ix is done with. */
  function SettledNext(m: Machine): nat { if IsLam(m.last) then m.lastPos else m.ix + 1 }

  // ------------------------------------------------------------------ the four kinds of unit

  /** Before the step, the reading up to a unit that is no mark: a waiting lam settles unless an alef follows. */
  lemma LamSettles(m: Machine)
    requires Structure(m) && m.ix < |m.buf| && !IrrelevantUnit(m.buf[m.ix]) && Ligature(m.buf[m.ix]) == 0
    ensures Total(m.buf, Settled(m)) == Total(m.buf, m.ix)
  {
    hide Link, Ligature, LamStretch;
    if IsLam(m.last) {
      TotalLam(m.buf, m.lastPos, m.ix);
    }
  }

  lemma LamSettlesAtEnd(m: Machine)
    requires Structure(m) && AllIrrelevant(m.buf, m.ix, |m.buf|)
    ensures Total(m.buf, Settled(m)) == Total(m.buf, |m.buf|)
  {
    hide Link, Ligature;
    if IsLam(m.last) {
      assert LamStretch(m.buf, m.lastPos, |m.buf|);
      TotalLam(m.buf, m.lastPos, |m.buf|);
    } else {
      IrrelevantSkip(m.buf, m.ix, m.ix);
    }
  }

  lemma IrrelevantSkip(buf: seq<nat>, from: nat, c: nat)
    requires from <= c <= |buf| && AllIrrelevant(buf, from, |buf|)
    ensures Total(buf, c) == Total(buf, |buf|)
  {
    hide Letter;
    forall k | c <= k < |buf| ensures Single(buf[k]) && Base(buf[k]) != Lam && Base(buf[k]) != YehHamza {
      MinorFacts(buf[k]);
    }
    TotalSkip(buf, c, |buf|);
  }

  lemma OneSettles(buf: seq<nat>, i: nat)
    requires i < |buf| && Single(buf[i]) && Base(buf[i]) != Lam && Base(buf[i]) != YehHamza
    ensures Total(buf, i) == Total(buf, i + 1)
  {
    hide Base, Single;
    TotalSkip(buf, i, i + 1);
  }

  /** A unit without forms that matters for linking, or the end of the text taken for one. */
  lemma ReadPlain(m: Machine)
    requires Structure(m) && m.ix < |m.buf| && !HasShapes(m.curr) && !Irrelevant(m.curr)
    ensures var m' := Noted(Shaped(m));
            Ready(m') && Total(m'.buf, SettledNext(m')) == Total(m.buf, Settled(m))
  {
    hide Link, Letter, Structure, Ready, Unshaped, Base, Single, HasShapes, Irrelevant, AllIrrelevant, Total, IsLam;
    PlainUnit(m);
    var x := m.buf[m.ix];
    if m.curr != Link(x) {
      LamSettlesAtEnd(m);
      IrrelevantSkip(m.buf, m.ix, m.ix + 1);
    } else {
      LamSettles(m);
      OneSettles(m.buf, m.ix);
    }
  }

  lemma PlainUnit(m: Machine)
    requires Structure(m) && m.ix < |m.buf| && !HasShapes(m.curr) && !Irrelevant(m.curr)
    ensures InRange(m) && Settled(m) <= |m.buf| && !IsLam(m.curr)
    ensures Ready(m.(prev := m.last, last := m.curr, lastPos := m.ix))
    ensures var x := m.buf[m.ix];
            if m.curr == Link(x)
            then !IrrelevantUnit(x) && Ligature(x) == 0 && Single(x) && Base(x) != Lam && Base(x) != YehHamza
            else AllIrrelevant(m.buf, m.ix, |m.buf|)
  {
    var x := m.buf[m.ix];
    LinkFacts(x);
    PlainIsNoLam(x);
    hide Link, LamStretch, Ligature, Letter;
    if m.curr == Link(x) {
      SingleOf(x);
    }
  }

  lemma SingleOf(x: nat)
    requires x != Lam && x != YehHamza && (Nominal(x) || IsMarkForm(x))
    ensures Single(x) && Base(x) != Lam && Base(x) != YehHamza
  {}

  /** A unit without forms. */
  lemma PlainIsNoLam(x: nat)
    requires Nominal(x) || IsMarkForm(x)
    ensures Link(x) % 4 != 2
    ensures !HasShapes(Link(x)) ==> !IsLam(Link(x)) && x != Lam && x != YehHamza && Ligature(x) == 0
  {
    LinkFacts(x);
    NotTwo(x);
  }

  /** A mark, or another unit that does not matter for linking. */
  lemma ReadMark(m: Machine)
    requires Structure(m) && m.ix < |m.buf| && Irrelevant(m.curr)
    ensures var m' := Noted(Shaped(m));
            Ready(m') && Total(m'.buf, SettledNext(m')) == Total(m.buf, Settled(m))
  {
    var x := m.buf[m.ix];
    MarkUnit(m);
    hide Link, Letter, MarkForm, Structure, Ready, Unshaped, Base, Single;
    var m' := Noted(Shaped(m));
    if IsMark(x) {
      MarkFormFacts(x, m.next, m.last);
      TotalUpdate(m.buf, m.ix, m'.buf[m.ix], Settled(m));
    }
    MarkReady(m, m');
    MinorFacts(m'.buf[m.ix]);
    if !IsLam(m.last) {
      OneSettles(m'.buf, m.ix);
    }
  }

  lemma MarkUnit(m: Machine)
    requires Structure(m) && m.ix < |m.buf| && Irrelevant(m.curr)
    ensures IrrelevantUnit(m.buf[m.ix]) && m.curr == 4 && InRange(m) && Settled(m) <= m.ix
  {
    LinkFacts(m.buf[m.ix]);
    hide Link;
  }

  lemma MarkReady(m: Machine, m': Machine)
    requires Structure(m) && m.ix < |m.buf| && IrrelevantUnit(m.buf[m.ix]) && |m'.buf| == |m.buf|
    requires m' == m.(buf := m'.buf) && Minor(m'.buf[m.ix])
    requires forall k :: 0 <= k < |m.buf| && k != m.ix ==> m'.buf[k] == m.buf[k]
    ensures Ready(m')
  {
    hide Link, Unshaped, Minor, Nominal;
    if IsLam(m.last) {
      assert LamStretch(m'.buf, m.lastPos, m.ix + 1);
    }
  }

  lemma MarkFormFacts(x: nat, next: nat, last: nat)
    requires IsMark(x)
    ensures IsMarkForm(MarkForm(x, next, last)) && Unshaped(MarkForm(x, next, last)) == [x] == Unshaped(x)
  {}

  lemma LetterFacts(x: nat, next: nat, last: nat)
    requires HasShapes(Link(x)) && Nominal(x)
    ensures !Irrelevant(Link(x)) && !IrrelevantUnit(x) && Link(x) % 4 != 2
    ensures x != YehHamza ==> Unshaped(Form(next, last, Link(x))) == [x] == Unshaped(x)
    ensures x != YehHamza ==> Single(Form(next, last, Link(x))) && Base(Form(next, last, Link(x))) == x
    ensures IsLam(Link(x)) <==> x == Lam
  {
    FormOfLetter(x, next, last);
    LinkFacts(x);
    NotTwo(x);
    OnlyLetters(x);
    hide Link, Form;
    if x != YehHamza {
      ReadAsLetter(x, Form(next, last, Link(x)));
    }
  }

  lemma ReadAsLetter(x: nat, y: nat)
    requires IsForm(y) && Letter(y) == x && x != YehHamza && x >= 0x0622 && Nominal(x)
    ensures Unshaped(y) == [x] == Unshaped(x) && Single(y) && Base(y) == x
  {
    YehForms();
    hide Letter;
  }

  lemma YehForms()
    ensures Letter(0xFE89) == YehHamza && Letter(0xFE8A) == YehHamza && Letter(0xFE80) == 0x0621
  {}

  lemma LookFacts(m: Machine)
    requires InRange(m) && m.nx.Unknown?
    ensures var l := Look(m); l == m.(nx := l.nx, next := l.next) && Looked(l)
  {
    SeekFacts(m.buf, m.ix + 1);
    forall k | 0 <= k < |m.buf| ensures Irrelevant(Link(m.buf[k])) <==> IrrelevantUnit(m.buf[k]) {
      LinkFacts(m.buf[k]);
    }
    hide Link, Irrelevant, IrrelevantUnit;
  }

  /** A letter, unlike an alef after a lam. */
  lemma ReadLetter(m: Machine)
    requires Structure(m) && m.ix < |m.buf| && HasShapes(m.curr) && !(IsAlef(m.curr) && IsLam(m.last))
    ensures var m' := Noted(Shaped(m));
            Ready(m') && Total(m'.buf, SettledNext(m')) == Total(m.buf, Settled(m))
  {
    hide Link, Letter, Form, Look, Shaped, Noted, Structure, Ready, Unshaped, Base, Single, HasShapes, Irrelevant;
    hide AllIrrelevant, Total;
    ShapedUnit(m);
    var x := m.buf[m.ix];
    var l := Look(m);
    LookFacts(m);
    var y := Form(l.next, m.last, m.curr);
    LetterFacts(x, l.next, m.last);
    LetterShaped(m, l, y);
    LetterSettles(m);
    var m' := Noted(Shaped(m));
    if x == YehHamza {
      YehSettles(m, l, y);
    } else {
      TotalUpdate(m.buf, m.ix, y, m.ix);
      if x != Lam {
        OneSettles(m'.buf, m.ix);
      }
    }
    LetterReady(m, l, m', x, y);
  }

  /** After a unit that is no mark, everything is nominal. */
  lemma NominalAfter(m: Machine)
    requires Structure(m) && m.ix < |m.buf| && Nominal(m.buf[m.ix]) && !IrrelevantUnit(m.buf[m.ix])
    ensures forall k :: m.ix <= k < |m.buf| ==> Nominal(m.buf[k])
  {
    hide Link, LamStretch, IrrelevantUnit;
  }

  lemma YehJoins(m: Machine, l: Machine)
    requires m.ix < |m.buf| && l == m.(nx := l.nx, next := l.next) && Looked(l) && !l.nx.Unknown?
    requires l.nx.At? ==> !IrrelevantUnit(m.buf[l.nx.pos])
    requires forall k :: m.ix <= k < |m.buf| ==> Nominal(m.buf[k])
    ensures l.next % 4 != 2
    ensures Joins(m.buf[m.ix..]) <==> l.next % 4 != 0
  {
    hide Link, IrrelevantUnit;
    var s := m.buf[m.ix..];
    if l.nx.At? {
      NotTwo(m.buf[l.nx.pos]);
      RelevantUnique(s, 1, l.nx.pos - m.ix);
    } else {
      RelevantUnique(s, 1, |s|);
    }
  }

  lemma LookRelevant(m: Machine)
    requires InRange(m) && m.nx.Unknown?
    ensures !Look(m).nx.Unknown?
    ensures Look(m).nx.At? ==> !IrrelevantUnit(m.buf[Look(m).nx.pos])
  {
    SeekFacts(m.buf, m.ix + 1);
    if Look(m).nx.At? {
      LinkFacts(m.buf[Look(m).nx.pos]);
    }
    hide Link, Irrelevant, IrrelevantUnit;
  }

  lemma YehSettles(m: Machine, l: Machine, y: nat)
    requires Structure(m) && InRange(m) && m.buf[m.ix] == YehHamza && m.curr == Link(YehHamza) && m.nx.Unknown?
    requires l == Look(m) && l == m.(nx := l.nx, next := l.next) && Looked(l) && y == Form(l.next, m.last, m.curr)
    ensures Total(m.buf[m.ix := y], m.ix + 1) == Total(m.buf, m.ix)
  {
    YehIsNominal();
    NominalAfter(m);
    LookRelevant(m);
    assert m.last % 4 != 2;
    hide Link, Look, Structure, Joins, Form, Total, Unshaped;
    YehJoins(m, l);
    FormOfYeh(l.next, m.last);
    YehReads(y, l.next);
    TotalYeh(m.buf, m.ix, y);
  }

  lemma YehIsNominal()
    ensures Nominal(YehHamza) && !IrrelevantUnit(YehHamza)
  {}

  lemma YehReads(y: nat, next: nat)
    requires if next % 4 == 0 then y == 0xFE89 || y == 0xFE8A else y == 0xFE8B || y == 0xFE8C
    ensures Unshaped(y) == [if next % 4 != 0 then YehHamza else EndYeh]
  {}

  lemma LetterShaped(m: Machine, l: Machine, y: nat)
    requires InRange(m) && HasShapes(m.curr) && !(IsAlef(m.curr) && IsLam(m.last)) && !Irrelevant(m.curr)
    requires l == Look(m) && l == m.(nx := l.nx, next := l.next) && y == Form(l.next, m.last, m.curr)
    ensures Noted(Shaped(m)) == l.(buf := m.buf[m.ix := y], prev := m.last, last := m.curr, lastPos := m.ix)
  {
    hide Link, Form, Look;
  }

  lemma LetterReady(m: Machine, l: Machine, m': Machine, x: nat, y: nat)
    requires Structure(m) && m.ix < |m.buf| && x == m.buf[m.ix] && Nominal(x) && !IrrelevantUnit(x)
    requires m.curr == Link(x) && Link(x) % 4 != 2 && (IsLam(Link(x)) <==> x == Lam) && (x == Lam ==> Unshaped(y) == [x])
    requires l == m.(nx := l.nx, next := l.next) && Looked(l)
    requires m' == l.(buf := m.buf[m.ix := y], prev := m.last, last := m.curr, lastPos := m.ix)
    ensures Ready(m')
  {
    hide Link, Unshaped, Ligature, IrrelevantUnit;
  }

  lemma LetterSettles(m: Machine)
    requires Structure(m) && m.ix < |m.buf| && m.curr == Link(m.buf[m.ix]) && HasShapes(m.curr)
    requires !IrrelevantUnit(m.buf[m.ix]) && !(IsAlef(m.curr) && IsLam(m.last))
    ensures Total(m.buf, Settled(m)) == Total(m.buf, m.ix)
  {
    LinkFacts(m.buf[m.ix]);
    hide Link, Ligature, LamStretch;
    if IsLam(m.last) {
      LamSettles(m);
    }
  }

  /** A unit with forms is a nominal letter, and nothing is known of the next unit. */
  lemma ShapedUnit(m: Machine)
    requires Structure(m) && m.ix < |m.buf| && HasShapes(m.curr)
    ensures m.curr == Link(m.buf[m.ix]) && Nominal(m.buf[m.ix]) && m.nx.Unknown? && InRange(m) && Settled(m) <= m.ix
  {
    var x := m.buf[m.ix];
    LinkFacts(x);
    if IsMarkForm(x) {
      LinksFE(x);
    }
    hide Link;
  }

  /** An alef after a lam. */
  lemma ReadAlef(m: Machine)
    requires Structure(m) && m.ix < |m.buf| && HasShapes(m.curr) && IsAlef(m.curr) && IsLam(m.last)
    ensures var m' := Noted(Shaped(m));
            Ready(m') && Total(m'.buf, SettledNext(m')) == Total(m.buf, Settled(m)) + [Space]
  {
    hide Link, Letter, Ligature, Form, Look, Shaped, Noted, Unshaped, Irrelevant, AllIrrelevant, Total, Dropped;
    var x := m.buf[m.ix];
    ShapedUnit(m);
    LinkFacts(x);
    LookFacts(m);
    var l := Look(m);
    var w := Ligature(x);
    var y := Form(l.next, m.prev, Link(w));
    FormOfLigature(x, l.next, m.prev);
    LigatureCode(x);
    NotTwo(w);
    LigatureUnshaped(y);
    AlefShaped(m, l, w, y);
    TotalMerge(m.buf, m.lastPos, m.ix, y);
    MergedReady(m.buf, m.lastPos, m.ix, y);
  }

  lemma LigatureCode(x: nat)
    ensures !(0xFE80 <= Ligature(x) <= 0xFEFC)
  {}

  lemma LigatureUnshaped(y: nat)
    requires IsLigature(y)
    ensures Unshaped(y) == [Lam, Merged(AlefOf(y))]
  {}

  lemma AlefShaped(m: Machine, l: Machine, w: nat, y: nat)
    requires InRange(m) && m.lastPos < m.ix && HasShapes(m.curr) && IsAlef(m.curr) && IsLam(m.last)
    requires l == Look(m) && l == m.(nx := l.nx, next := l.next)
    requires w == Ligature(m.buf[m.ix]) && w != 0 && y == Form(l.next, m.prev, Link(w)) && !Irrelevant(Link(w))
    ensures Noted(Shaped(m)) == l.(buf := Dropped(m.buf[m.lastPos := y], m.ix), ix := m.lastPos, prev := m.prev,
                                   last := Link(w), curr := Link(w), lastPos := m.lastPos, nx := Unknown)
  {
    hide Link, Ligature, Form, Look;
    var buf := Dropped(m.buf[m.lastPos := w], m.ix);
    assert buf[m.lastPos := y] == Dropped(m.buf[m.lastPos := y], m.ix);
  }

  lemma MergedReady(buf: seq<nat>, c: nat, i: nat, y: nat)
    requires LamStretch(buf, c, i) && i < |buf|
    ensures Unread(Dropped(buf[c := y], i), c + 1)
  {
    var d := Dropped(buf[c := y], i);
    assert forall k :: c < k < |buf| ==> d[k] == if k < i then buf[k] else if k < |buf| - 1 then buf[k + 1] else Space;
    hide Unshaped;
  }

  // ------------------------------------------------------------------ whole runs

  ghost predicate Padded(t: seq<nat>, text: seq<nat>)
  {
    exists k: nat :: t == Ordered(Tagged(text)) + Spaces(k)
  }

  lemma PadMore(t: seq<nat>, text: seq<nat>)
    requires Padded(t, text)
    ensures Padded(t + [Space], text)
  {
    var k: nat :| t == Ordered(Tagged(text)) + Spaces(k);
    assert t + [Space] == Ordered(Tagged(text)) + Spaces(k + 1);
  }

  lemma StepReads(m: Machine, text: seq<nat>)
    requires Structure(m) && m.ix < |m.buf| && Padded(Total(m.buf, Settled(m)), text)
    ensures var m' := Noted(Shaped(m));
            Ready(m') && Padded(Total(m'.buf, SettledNext(m')), text)
  {
    assert InRange(m) && Settled(m) <= |m.buf|;
    hide Structure, Ready, Padded, Total, Link, Shaped, Noted;
    if !HasShapes(m.curr) && !Irrelevant(m.curr) {
      ReadPlain(m);
    } else if !HasShapes(m.curr) {
      ReadMark(m);
    } else if IsAlef(m.curr) && IsLam(m.last) {
      ReadAlef(m);
      PadMore(Total(m.buf, Settled(m)), text);
    } else {
      ReadLetter(m);
    }
  }

  lemma InStructure(m: Machine)
    requires Structure(m) && m.ix < |m.buf|
    ensures InRange(m)
  {}

  lemma StepKeeps(m: Machine, text: seq<nat>, beyond: int)
    requires Structure(m) && m.ix < |m.buf| && Padded(Total(m.buf, Settled(m)), text)
    ensures var m' := Step(m, beyond);
            Structure(m') && Padded(Total(m'.buf, Settled(m')), text)
  {
    hide Structure, Ready, Padded, Total, Link, Shaped, Noted, Moved, IsLam;
    InStructure(m);
    StepReads(m, text);
    MovedOk(Noted(Shaped(m)), beyond);
  }

  lemma {:induction false} RunKeeps(m: Machine, text: seq<nat>, beyond: int)
    requires Structure(m) && Padded(Total(m.buf, Settled(m)), text)
    ensures Padded(Meaning(Run(m, beyond)), text)
    decreases Alefs(m.buf), |m.buf| - m.ix
  {
    hide Total, Alefs, Step, Padded;
    if m.ix == |m.buf| {
      LamSettlesAtEnd(m);
      TotalAtEnd(m.buf);
    } else {
      StepKeeps(m, text, beyond);
      StepProgress(m, beyond);
      RunKeeps(Step(m, beyond), text, beyond);
    }
  }

  lemma TotalAtEnd(buf: seq<nat>)
    ensures Total(buf, |buf|) == Meaning(buf)
  {
    hide Unshaped, Pair;
    assert buf[..|buf|] == buf && buf[|buf|..] == [];
    assert Meaning([]) == [] == Ordered([]);
  }

  /** Shaped nominal text reads as the text, with marks after their lam-alef pairs, and a space for every pair. */
  lemma ShapingKeepsText(text: seq<nat>, beyond: int)
    requires AllNominal(text)
    ensures Padded(Meaning(ShapedText(text, beyond)), text)
  {
    if text == [] {
      assert Meaning([]) == Ordered(Tagged(text)) + Spaces(0);
    } else {
      BeginKeeps(text);
      RunKeeps(Begin(text), text, beyond);
    }
  }

  lemma BeginKeeps(text: seq<nat>)
    requires text != [] && AllNominal(text)
    ensures var m := Begin(text); Structure(m) && Padded(Total(m.buf, Settled(m)), text)
  {
    hide Link, Ordered;
    forall k | 0 <= k < |text| ensures Single(text[k]) && Base(text[k]) == text[k] {
      NominalFacts(text[k]);
    }
    MeaningPointwise(text);
    assert Meaning(text) == text && text[0..] == text;
    assert Total(text, 0) == Ordered(Tagged(text)) + Spaces(0);
  }

  // ------------------------------------------------------------------ what shaping keeps of any buffer

  predicate Units(buf: seq<nat>) { forall i :: 0 <= i < |buf| ==> buf[i] < 0x10000 }

  /** Links are small, so that forms are units. */
  predicate Small(m: Machine) { m.curr < 0x9000 && m.next < 0x9000 && Units(m.buf) }

  lemma LinkBound(x: nat)
    ensures Link(x) < 0x9000
  {
    hide Link06, LinkFE;
    if 0x0622 <= x <= 0x06D3 {
      Link06Bound(x);
    } else if 0xFE70 <= x <= 0xFEFC {
      LinkFEBound(x);
    }
  }

  lemma Link06Bound(x: nat)
    ensures Link06(x) < 0x9000
  {}

  lemma LinkFEBound(x: nat)
    ensures LinkFE(x) < 0x9000
  {}

  lemma FormBound(next: nat, last: nat, curr: nat)
    requires curr < 0x9000
    ensures Form(next, last, curr) < 0x10000
  {
    hide ShapeOf;
    ShapeRange(next, last, curr);
  }

  lemma SmallStep(m: Machine, beyond: int)
    requires InRange(m) && Small(m)
    ensures Small(Step(m, beyond))
  {
    SmallShaped(m);
    hide Link, Shaped, Noted, Moved, Small;
    SmallNoted(Shaped(m));
    SmallMoved(Noted(Shaped(m)), beyond);
  }

  lemma SmallNoted(m: Machine)
    requires InRange(m) && Small(m)
    ensures InRange(Noted(m)) && Small(Noted(m))
  {
    hide MarkForm;
    if Irrelevant(m.curr) && IsMark(m.buf[m.ix]) {
      MarkFormBound(m.buf[m.ix], m.next, m.last);
    }
  }

  lemma SmallMoved(m: Machine, beyond: int)
    requires InRange(m) && Small(m)
    ensures Small(Moved(m, beyond))
  {
    if m.ix + 1 < |m.buf| {
      LinkBound(m.buf[m.ix + 1]);
    }
    hide Link;
  }

  lemma MarkFormBound(x: nat, next: nat, last: nat)
    requires IsMark(x)
    ensures MarkForm(x, next, last) < 0x10000
  {}

  lemma SmallShaped(m: Machine)
    requires InRange(m) && Small(m)
    ensures Small(Shaped(m)) && InRange(Shaped(m))
  {
    hide Link, Ligature, Form, Seek, Dropped;
    if HasShapes(m.curr) {
      var l := Look(m);
      SmallLook(m);
      SmallMerge(l);
      var m' := Merge(l);
      hide Merge, Look;
      FormBound(m'.next, m'.last, m'.curr);
    }
  }

  lemma SmallLook(m: Machine)
    requires InRange(m) && Small(m)
    ensures InRange(Look(m)) && Small(Look(m))
  {
    if m.nx.Unknown? && Look(m).nx.At? {
      LinkBound(m.buf[Look(m).nx.pos]);
    }
    hide Link;
  }

  lemma SmallMerge(m: Machine)
    requires InRange(m) && Small(m)
    ensures Small(Merge(m))
  {
    var w := Ligature(m.buf[m.ix]);
    LinkBound(w);
    LigatureBound(m.buf[m.ix]);
    hide Link, Ligature;
    if IsAlef(m.curr) && IsLam(m.last) && w != 0 {
      UnitsDropped(m.buf[m.lastPos := w], m.ix);
    }
  }

  lemma LigatureBound(x: nat)
    ensures Ligature(x) < 0x10000
  {}

  lemma UnitsDropped(buf: seq<nat>, i: nat)
    requires i < |buf| && Units(buf)
    ensures Units(Dropped(buf, i))
  {}

  lemma {:induction false} RunKept(m: Machine, beyond: int)
    requires m.ix <= |m.buf| && (m.ix < |m.buf| ==> InRange(m)) && Small(m)
    ensures |Run(m, beyond)| == |m.buf| && Units(Run(m, beyond))
    decreases Alefs(m.buf), |m.buf| - m.ix
  {
    hide Step, Alefs, Small;
    if m.ix < |m.buf| {
      StepProgress(m, beyond);
      SmallStep(m, beyond);
      RunKept(Step(m, beyond), beyond);
    } else {
      SmallUnits(m);
    }
  }

  lemma SmallUnits(m: Machine)
    requires Small(m)
    ensures Units(m.buf)
  {}

  /** Shaping keeps the length of any buffer of units. */
  lemma ShapedLength(text: seq<nat>, beyond: int)
    requires Units(text)
    ensures |ShapedText(text, beyond)| == |text| && Units(ShapedText(text, beyond))
  {
    if text != [] {
      LinkBound(text[0]);
      hide Link;
      RunKept(Begin(text), beyond);
    }
  }
}
