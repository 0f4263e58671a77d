/** What reordering keeps: the line a reader sees. Showing a text by its levels twice gives it back, so the text that
    comes out is shown as the line that went in. */
module BidiLines {
  import opened BidiTables
  import opened BidiLevels
  import opened BidiReorder
  import opened BidiMachine
  import opened BidiOrdering
  import BidiPasses
  import BidiTypeRules

  // ------------------------------------------------------------------ showing by levels is its own inverse

  lemma Hits(q: seq<int>, n: nat, s: int)
    requires IsPermutation(q, n) && 0 <= s < n
    ensures exists x :: 0 <= x < n && q[x] == s
  {
    var x := Surjective(q, n, s);
  }

  ghost function Place(q: seq<int>, s: int): (x: int)
    requires IsPermutation(q, |q|) && 0 <= s < |q|
    ensures 0 <= x < |q| && q[x] == s
  {
    Hits(q, |q|, s);
    var x :| 0 <= x < |q| && q[x] == s;
    x
  }

  /** The display position of every source position. */
  ghost function Inverse(q: seq<int>): (p: seq<int>)
    requires IsPermutation(q, |q|)
    ensures |p| == |q|
    ensures forall s :: 0 <= s < |q| ==> 0 <= p[s] < |q| && q[p[s]] == s
  {
    seq(|q|, s requires 0 <= s < |q| => Place(q, s))
  }

  /** From outside a stretch of high levels every character of the stretch is seen over the same lowest level. */
  lemma SameMin(levels: seq<int>, k: int, a: nat, b: nat, c: nat)
    requires a < |levels| && b < |levels| && c < |levels|
    requires Linked(levels, k, a, b) && !Linked(levels, k, a, c)
    ensures !Linked(levels, k, b, c)
    ensures MinLevel(levels, a, c) == MinLevel(levels, b, c)
    ensures a < c <==> b < c
  {
    if Linked(levels, k, b, c) {
      LinkedTransitive(levels, k, a, b, c);
    }
    LinkedByMin(levels, k, a, c);
    LinkedByMin(levels, k, b, c);
    var m, m' := MinLevel(levels, a, c), MinLevel(levels, b, c);
    LinkedByMin(levels, m, a, c);
    LinkedByMin(levels, m, b, c);
    LinkedByMin(levels, m', a, c);
    LinkedByMin(levels, m', b, c);
    LinkedTransitive(levels, m, b, a, c);
    LinkedTransitive(levels, m', a, b, c);
  }

  /** A stretch of high levels is shown as a stretch. */
  lemma ShownTogether(levels: seq<int>, q: seq<int>, parity: int, k: int, x: nat, z: nat, y: nat)
    requires IsPermutation(q, |levels|) && ShownByLevels(q, levels, parity)
    requires x < z < y < |levels| && Linked(levels, k, q[x], q[y])
    ensures levels[q[z]] >= k
  {
    if !Linked(levels, k, q[x], q[z]) {
      hide MinLevel, Linked;
      SameMin(levels, k, q[x], q[y], q[z]);
      assert false;
    }
  }

  lemma {:induction false} LeastAttained(levels: seq<int>, a: nat, b: nat) returns (c: nat)
    requires a <= b < |levels|
    ensures a <= c <= b && levels[c] == LeastFrom(levels, a, b)
    decreases b - a
  {
    if a == b || levels[a] <= LeastFrom(levels, a + 1, b) {
      c := a;
    } else {
      c := LeastAttained(levels, a + 1, b);
    }
  }

  /** The position of a lowest level between a and b is seen from both over that level. */
  lemma LowestBetween(levels: seq<int>, a: nat, b: nat) returns (c: nat)
    requires a < |levels| && b < |levels|
    ensures Min(a, b) <= c <= Max(a, b) && levels[c] == MinLevel(levels, a, b)
    ensures MinLevel(levels, a, c) == MinLevel(levels, c, b) == MinLevel(levels, a, b)
  {
    c := LeastAttained(levels, Min(a, b), Max(a, b));
    var m := MinLevel(levels, a, b);
    LinkedByMin(levels, m, a, b);
    LinkedByMin(levels, m, a, c);
    LinkedByMin(levels, m, c, b);
    LinkedByMin(levels, m + 1, a, c);
    LinkedByMin(levels, m + 1, c, b);
  }

  /** Characters of high level shown side by side come from one stretch. */
  lemma NeighboursLinked(levels: seq<int>, q: seq<int>, parity: int, k: int, z: nat)
    requires IsPermutation(q, |levels|) && ShownByLevels(q, levels, parity)
    requires z + 1 < |levels| && levels[q[z]] >= k && levels[q[z + 1]] >= k
    ensures Linked(levels, k, q[z], q[z + 1])
  {
    LinkedByMin(levels, k, q[z], q[z + 1]);
    if !Linked(levels, k, q[z], q[z + 1]) {
      var c := LowestBetween(levels, q[z], q[z + 1]);
      var w := Surjective(q, |levels|, c);
      hide MinLevel, Linked, Injective;
      assert w != z && w != z + 1;
      BetweenNeighbours(levels, q, parity, z, w);
      assert false;
    }
  }

  lemma BetweenNeighbours(levels: seq<int>, q: seq<int>, parity: int, z: nat, w: nat)
    requires InRange(q, |levels|) && ShownByLevels(q, levels, parity)
    requires z + 1 < |levels| && w < |levels| && w != z && w != z + 1
    requires q[z] != q[z + 1] && q[w] != q[z] && q[w] != q[z + 1]
    requires MinLevel(levels, q[z], q[w]) == MinLevel(levels, q[w], q[z + 1]) == MinLevel(levels, q[z], q[z + 1])
    ensures !(Min(q[z], q[z + 1]) <= q[w] <= Max(q[z], q[z + 1]))
  {
    hide LeastFrom;
  }

  lemma {:induction false} LinkedInSource(levels: seq<int>, q: seq<int>, parity: int, k: int, x: nat, y: nat)
    requires IsPermutation(q, |levels|) && ShownByLevels(q, levels, parity)
    requires x <= y < |levels| && forall z :: x <= z <= y ==> levels[q[z]] >= k
    ensures Linked(levels, k, q[x], q[y])
    decreases y - x
  {
    hide ShownByLevels, Injective;
    if x < y {
      LinkedInSource(levels, q, parity, k, x, y - 1);
      NeighboursLinked(levels, q, parity, k, y - 1);
      LinkedTransitive(levels, k, q[x], q[y - 1], q[y]);
    }
  }

  /** The lowest level between two characters is the same in the text and in the line. */
  lemma MinKept(levels: seq<int>, q: seq<int>, parity: int, x: nat, y: nat)
    requires IsPermutation(q, |levels|) && ShownByLevels(q, levels, parity)
    requires x < y < |levels|
    ensures MinLevel(Permuted(levels, q), x, y) == MinLevel(levels, q[x], q[y])
  {
    var shown := Permuted(levels, q);
    var m, m' := MinLevel(levels, q[x], q[y]), MinLevel(shown, x, y);
    LinkedByMin(levels, m, q[x], q[y]);
    LinkedByMin(levels, m', q[x], q[y]);
    LinkedByMin(shown, m, x, y);
    LinkedByMin(shown, m', x, y);
    assert Linked(shown, m, x, y) by {
      forall z | x <= z <= y ensures shown[z] >= m {
        if x < z < y {
          ShownTogether(levels, q, parity, m, x, z, y);
        }
      }
    }
    LinkedInSource(levels, q, parity, m', x, y);
  }

  /** A line shown by its own levels is the text again. */
  lemma DisplayTwice(levels: seq<int>, q: seq<int>, parity: int)
    requires parity == 0 || parity == 1
    requires IsPermutation(q, |levels|) && ShownByLevels(q, levels, parity)
    ensures IsPermutation(Inverse(q), |levels|) && ShownByLevels(Inverse(q), Permuted(levels, q), parity)
  {
    var p, shown := Inverse(q), Permuted(levels, q);
    hide MinLevel, Inverse;
    forall s, t | 0 <= s < t < |levels|
      ensures p[s] != p[t] && (p[s] < p[t] <==> MinLevel(shown, p[s], p[t]) % 2 == parity)
    {
      assert q[p[s]] == s && q[p[t]] == t;
      if p[s] < p[t] {
        MinKept(levels, q, parity, p[s], p[t]);
      } else {
        MinKept(levels, q, parity, p[t], p[s]);
        MinSymmetric(levels, s, t);
        MinSymmetric(shown, p[s], p[t]);
      }
    }
  }

  lemma MinSymmetric(levels: seq<int>, a: nat, b: nat)
    requires a < |levels| && b < |levels|
    ensures MinLevel(levels, a, b) == MinLevel(levels, b, a)
  {}

  /** A line read from its other end is shown with the other parity. */
  lemma OtherEnd(levels: seq<int>, q: seq<int>, parity: int)
    requires parity == 0 || parity == 1
    requires IsPermutation(q, |levels|) && ShownByLevels(q, levels, parity)
    ensures IsPermutation(Reversed(q), |levels|) && ShownByLevels(Reversed(q), levels, 1 - parity)
  {
    var r := Reversed(q);
    hide MinLevel;
    forall x, y | 0 <= x < y < |levels| ensures r[x] < r[y] <==> MinLevel(levels, r[x], r[y]) % 2 == 1 - parity {
      MinSymmetric(levels, r[x], r[y]);
      assert r[x] == q[|q| - 1 - x] && r[y] == q[|q| - 1 - y];
    }
  }

  // ------------------------------------------------------------------ the line of a reordered text

  /** The line a text with these levels is shown as, from left to right. */
  ghost predicate LineOf(line: seq<int>, levels: seq<int>)
  {
    IsPermutation(line, |levels|) && ShownByLevels(line, levels, 0)
  }

  /** Shown left to right by levels, the text that was put in this order gives back the order it came from, read
      from the left or, for a right-to-left text, from the right. */
  lemma LineBack(levels: seq<int>, order: seq<int>, rtl: bool) returns (line: seq<int>)
    requires IsPermutation(order, |levels|) && ShownByLevels(order, levels, if rtl then 1 else 0)
    ensures LineOf(line, Permuted(levels, order))
    ensures var n := |levels|;
            forall i :: 0 <= i < n ==> order[line[i]] == if rtl then n - 1 - i else i
  {
    DisplayTwice(levels, order, if rtl then 1 else 0);
    line := Inverse(order);
    if rtl {
      OtherEnd(Permuted(levels, order), line, 1);
      line := Reversed(line);
    }
  }

  /** From one implicit orientation to the other in two phases: the text that comes out, shown by its levels, is the
      line that the text that went in is shown as. */
  lemma TwoPhasesKeepLine(src: seq<int>, cls: int -> int, o: Options, first: Phase, second: Phase, r: Ordered)
    returns (line: seq<int>)
    requires o.TwoPhases() && !o.removeMarkers
    requires DoublePhase(o, src, cls, first, second)
    requires Rendered(o, src, DoubleLayout(o, src, cls, first, second), r)
    ensures LineOf(first.order, first.levels)
    ensures |r.dstToSrc| == |src| && LineOf(line, Permuted(second.levels, second.order))
    ensures forall i :: 0 <= i < |src| ==> r.dstToSrc[line[i]] == first.order[i]
  {
    hide ShownByLevels, MachineLevels, FirstTypes, SecondTypes, TypesOk, TableOk, ChooseTable, CurrentLevel, Units,
         BidiPasses.InverseOf, SecondMarks, Marks, Injective, LineOf, RawClasses;
    LineOrder(first.order, first.levels);
    line := LineBack(second.levels, second.order, o.rtlOut);
    LineInRange(line, Permuted(second.levels, second.order));
    var full := Permuted(Between(o, first), second.order);
    AllSources(o, src, DoubleLayout(o, src, cls, first, second), r);
    assert r.dstToSrc == full;
    forall i | 0 <= i < |src| ensures full[line[i]] == first.order[i] {
      assert full[line[i]] == Between(o, first)[second.order[line[i]]];
    }
  }

  lemma LineOrder(order: seq<int>, levels: seq<int>)
    requires IsPermutation(order, |levels|) && ShownByLevels(order, levels, 0)
    ensures LineOf(order, levels)
  {}

  lemma LineInRange(line: seq<int>, levels: seq<int>)
    requires LineOf(line, levels)
    ensures InRange(line, |levels|)
  {}

  /** Without marker removal every position has an entry. */
  lemma AllSources(o: Options, b: seq<int>, l: Layout, r: Ordered)
    requires Rendered(o, b, l, r) && !o.removeMarkers
    ensures r.dstToSrc == Sources(l.full, o.InvertsInput())
  {}

  /** A logical text shown in visual order: the text that comes out is the line, from the side the orientation
      says. */
  lemma VisualOutputIsLine(src: seq<int>, cls: int -> int, o: Options, ph: Phase, r: Ordered) returns (line: seq<int>)
    requires !o.visualIn && o.visualOut && !o.removeMarkers
    requires SinglePhase(o, Buffer(src, o), cls, ph)
    requires Rendered(o, Buffer(src, o), SingleLayout(o, Buffer(src, o), cls, ph), r)
    ensures LineOf(line, ph.levels) && |r.dstToSrc| == |line| == |src|
    ensures forall i :: 0 <= i < |src| ==> r.dstToSrc[i] == if o.rtlOut then line[|src| - 1 - i] else line[i]
  {
    hide ShownByLevels, MachineLevels, FirstTypes, TypesOk, TableOk, ChooseTable, CurrentLevel, Units,
         BidiPasses.InverseOf, Marks, Injective, RawClasses;
    AllSources(o, src, SingleLayout(o, src, cls, ph), r);
    line := ph.order;
    if o.rtlOut {
      OtherEnd(ph.levels, ph.order, 1);
      line := Reversed(ph.order);
    }
  }

  /** A visual text made logical: shown by its levels, the text that comes out is the line that went in. */
  lemma VisualInputIsLine(src: seq<int>, cls: int -> int, o: Options, ph: Phase, r: Ordered) returns (line: seq<int>)
    requires o.visualIn && !o.visualOut && !o.removeMarkers
    requires SinglePhase(o, Buffer(src, o), cls, ph)
    requires Rendered(o, Buffer(src, o), SingleLayout(o, Buffer(src, o), cls, ph), r)
    ensures |ph.levels| == |r.dstToSrc| == |src| && IsPermutation(ph.order, |src|)
    ensures LineOf(line, Permuted(ph.levels, ph.order))
    ensures forall i :: 0 <= i < |src| ==> r.dstToSrc[line[i]] == if o.rtlIn then |src| - 1 - i else i
  {
    hide ShownByLevels, MachineLevels, FirstTypes, TypesOk, TableOk, ChooseTable, CurrentLevel, Units,
         BidiPasses.InverseOf, Marks, Injective, RawClasses, LineOf;
    AllSources(o, Buffer(src, o), SingleLayout(o, Buffer(src, o), cls, ph), r);
    line := LineBack(ph.levels, ph.order, o.rtlOut);
    LineInRange(line, Permuted(ph.levels, ph.order));
  }

  /** A logical text that stays logical in one phase keeps its order. */
  lemma LogicalStays(src: seq<int>, cls: int -> int, o: Options, ph: Phase, r: Ordered)
    requires !o.visualIn && !o.visualOut && !o.removeMarkers
    requires SinglePhase(o, Buffer(src, o), cls, ph)
    requires Rendered(o, Buffer(src, o), SingleLayout(o, Buffer(src, o), cls, ph), r)
    ensures |r.dstToSrc| == |src| && forall i :: 0 <= i < |src| ==> r.dstToSrc[i] == i
  {
    AllSources(o, src, SingleLayout(o, src, cls, ph), r);
  }

  // ------------------------------------------------------------------ visual to visual

  /** A neutral at the start stays at the base level. */
  predicate NeutralStart(tab: Table)
  {
    TableOk(tab) && tab[0][N] == 0 && tab[0][ITIL] == 0
  }

  lemma NeutralsStart(rtl: bool, roundTrip: bool, win: bool)
    ensures NeutralStart(ChooseTable(rtl, roundTrip, win, false))
  {
    ChosenTable(rtl, roundTrip, win, false);
    hide TableOk;
  }

  lemma NeutralsOk(n: nat)
    ensures TypesOk(seq(n, _ => N))
  {}

  lemma NeutralStep(tab: Table, cur: int, n: nat)
    requires NeutralStart(tab)
    ensures Step(tab, cur, Run(0, -1, seq(n, _ => cur)), N) == Run(0, -1, seq(n + 1, _ => cur))
  {
    assert seq(n + 1, _ => cur) == seq(n, _ => cur) + [cur];
  }

  lemma {:induction false} NeutralRun(tab: Table, cur: int, n: nat)
    requires NeutralStart(tab)
    ensures TypesOk(seq(n, _ => N))
    ensures RunAll(tab, cur, seq(n, _ => N)) == Run(0, -1, seq(n, _ => cur))
  {
    NeutralsOk(n);
    hide NeutralStart, TypesOk;
    if n > 0 {
      NeutralRun(tab, cur, n - 1);
      assert seq(n, _ => N)[..n - 1] == seq(n - 1, _ => N);
      NeutralStep(tab, cur, n - 1);
      hide Step;
    }
  }

  /** A visual text stays as it is when the orientation does, and is turned around when it does not. */
  lemma VisualToVisual(src: seq<int>, cls: int -> int, o: Options, ph: Phase, r: Ordered)
    requires o.visualIn && o.visualOut && !o.removeMarkers
    requires SinglePhase(o, Buffer(src, o), cls, ph)
    requires Rendered(o, Buffer(src, o), SingleLayout(o, Buffer(src, o), cls, ph), r)
    ensures |r.dstToSrc| == |src|
    ensures forall i :: 0 <= i < |src| ==> r.dstToSrc[i] == if o.rtlIn == o.rtlOut then i else |src| - 1 - i
  {
    AllSources(o, src, SingleLayout(o, src, cls, ph), r);
    NeutralTypes(src, cls, o.delim1, o.delim2);
    FlatLevels(o.rtlIn, o.roundTrip, o.winCompatible, CurrentLevel(o.rtlIn, o.rtlOut), |src|);
    hide FirstTypes, TableOk, TypesOk, Units, BidiPasses.InverseOf, Marks, ShownByLevels, MachineLevels, ChooseTable,
         Rendered, Injective;
    FlatOrder(ph.order, ph.levels, if o.rtlIn then 1 else if o.rtlOut then 2 else 0, if o.rtlOut then 1 else 0);
  }

  lemma NeutralTypes(src: seq<int>, cls: int -> int, d1: int, d2: int)
    ensures FirstTypes(src, cls, d1, d2, true) == seq(|src|, _ => N)
  {
    BidiTypeRules.FirstTypesByRules(src, cls, d1, d2);
  }

  lemma FlatLevels(rtl: bool, roundTrip: bool, win: bool, cur: int, n: nat)
    ensures var tab := ChooseTable(rtl, roundTrip, win, false);
            && TableOk(tab) && TypesOk(seq(n, _ => N))
            && MachineLevels(tab, cur, seq(n, _ => N)) == seq(n, _ => cur)
  {
    NeutralsStart(rtl, roundTrip, win);
    NeutralRun(ChooseTable(rtl, roundTrip, win, false), cur, n);
    FlatEnd(ChooseTable(rtl, roundTrip, win, false), cur, n);
  }

  lemma FlatEnd(tab: Table, cur: int, n: nat)
    requires NeutralStart(tab) && TypesOk(seq(n, _ => N))
    requires RunAll(tab, cur, seq(n, _ => N)) == Run(0, -1, seq(n, _ => cur))
    ensures MachineLevels(tab, cur, seq(n, _ => N)) == seq(n, _ => cur)
  {
    hide RunAll;
    assert EntryOk(tab, tab[0][ITCOND], B, tab[0][B]);
  }

  lemma FlatOrder(order: seq<int>, levels: seq<int>, cur: int, parity: int)
    requires levels == seq(|levels|, _ => cur) && (parity == 0 || parity == 1)
    requires IsPermutation(order, |levels|) && ShownByLevels(order, levels, parity)
    ensures forall i :: 0 <= i < |levels| ==> order[i] == if cur % 2 == parity then i else |levels| - 1 - i
  {
    var n := |levels|;
    var p := if cur % 2 == parity then BidiPasses.Identity(n) else Reversed(BidiPasses.Identity(n));
    FlatShown(p, levels, cur, parity);
    hide ShownByLevels, IsPermutation;
    ShownByLevelsUnique(order, p, levels, parity, n);
    assert order[..n] == order && p[..n] == p;
  }

  lemma FlatMin(levels: seq<int>, cur: int, a: nat, b: nat)
    requires a < |levels| && b < |levels| && levels == seq(|levels|, _ => cur)
    ensures MinLevel(levels, a, b) == cur
  {
    var c := LeastAttained(levels, Min(a, b), Max(a, b));
  }

  lemma FlatShown(p: seq<int>, levels: seq<int>, cur: int, parity: int)
    requires levels == seq(|levels|, _ => cur) && (parity == 0 || parity == 1)
    requires p == if cur % 2 == parity then BidiPasses.Identity(|levels|)
                  else Reversed(BidiPasses.Identity(|levels|))
    ensures IsPermutation(p, |levels|) && ShownByLevels(p, levels, parity)
  {
    hide MinLevel;
    forall x, y | 0 <= x < y < |levels| ensures p[x] < p[y] <==> MinLevel(levels, p[x], p[y]) % 2 == parity {
      FlatMin(levels, cur, p[x], p[y]);
    }
  }
}
