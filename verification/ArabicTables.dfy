/** The link attributes and presentation forms of Arabic letters. A link packs, from the low bits: links to the
    right (1), links to the left (2), irrelevant to linking (4), lam (16), alef (32), and from bit 8 on the place
    of the first presentation form after U+FE70. */
module ArabicTables {

  const Shapes: seq<seq<seq<nat>>> := [
    [[0, 0, 0, 0], [0, 0, 0, 0], [0, 1, 0, 3], [0, 1, 0, 1]],
    [[0, 0, 2, 2], [0, 0, 1, 2], [0, 1, 1, 2], [0, 1, 1, 3]],
    [[0, 0, 0, 0], [0, 0, 0, 0], [0, 1, 0, 3], [0, 1, 0, 3]],
    [[0, 0, 1, 2], [0, 0, 1, 2], [0, 1, 1, 2], [0, 1, 1, 3]]]

  const Space: nat := 0x20
  const Lam: nat := 0x0644

  /** The links of U+0622 to U+06D3, by runs of equal entries. */
  function Link06(x: nat): nat
  {
    if x <= 0x0622 then 0x1121 else if x <= 0x0623 then 0x1321 else if x <= 0x0624 then 0x1501
    else if x <= 0x0625 then 0x1721 else if x <= 0x0626 then 0x1903 else if x <= 0x0627 then 0x1D21
    else if x <= 0x0628 then 0x1F03 else if x <= 0x0629 then 0x2301 else if x <= 0x062A then 0x2503
    else if x <= 0x062B then 0x2903 else if x <= 0x062C then 0x2D03 else if x <= 0x062D then 0x3103
    else if x <= 0x062E then 0x3503 else if x <= 0x062F then 0x3901 else if x <= 0x0630 then 0x3B01
    else if x <= 0x0631 then 0x3D01 else if x <= 0x0632 then 0x3F01 else if x <= 0x0633 then 0x4103
    else if x <= 0x0634 then 0x4503 else if x <= 0x0635 then 0x4903 else if x <= 0x0636 then 0x4D03
    else if x <= 0x0637 then 0x5103 else if x <= 0x0638 then 0x5503 else if x <= 0x0639 then 0x5903
    else if x <= 0x063A then 0x5D03 else if x <= 0x063F then 0 else if x <= 0x0640 then 3
    else if x <= 0x0641 then 0x6103 else if x <= 0x0642 then 0x6503 else if x <= 0x0643 then 0x6903
    else if x <= 0x0644 then 0x6D13 else if x <= 0x0645 then 0x7103 else if x <= 0x0646 then 0x7503
    else if x <= 0x0647 then 0x7903 else if x <= 0x0648 then 0x7D01 else if x <= 0x0649 then 0x7F01
    else if x <= 0x064A then 0x8103 else if x <= 0x0652 then 4 else if x <= 0x065B then 0
    else if x <= 0x065C then 0x8501 else if x <= 0x065D then 0x8701 else if x <= 0x065E then 0x8901
    else if x <= 0x065F then 0x8B01 else if x <= 0x066F then 0 else if x <= 0x0670 then 4
    else if x <= 0x0671 then 0 else if x <= 0x0673 then 33 else if x <= 0x0674 then 0
    else if x <= 0x0675 then 33 else if x <= 0x0677 then 1 else if x <= 0x0687 then 3
    else if x <= 0x0699 then 1 else if x <= 0x06BF then 3 else if x <= 0x06C0 then 1 else if x <= 0x06C1 then 3
    else if x <= 0x06CB then 1 else if x <= 0x06CC then 3 else if x <= 0x06CD then 1 else if x <= 0x06D1 then 3
    else 1
  }

  /** The links of the presentation forms U+FE70 to U+FEFC, by runs of equal entries. */
  function LinkFE(x: nat): nat
  {
    if x <= 0xFE72 then 3 else if x <= 0xFE73 then 0 else if x <= 0xFE74 then 3 else if x <= 0xFE75 then 0
    else if x <= 0xFE7F then 3 else if x <= 0xFE80 then 0 else if x <= 0xFE81 then 32
    else if x <= 0xFE82 then 33 else if x <= 0xFE83 then 32 else if x <= 0xFE84 then 33
    else if x <= 0xFE85 then 0 else if x <= 0xFE86 then 1 else if x <= 0xFE87 then 32
    else if x <= 0xFE88 then 33 else if x <= 0xFE89 then 0 else if x <= 0xFE8A then 2
    else if x <= 0xFE8B then 3 else if x <= 0xFE8C then 1 else if x <= 0xFE8D then 32
    else if x <= 0xFE8E then 33 else if x <= 0xFE8F then 0 else if x <= 0xFE90 then 2
    else if x <= 0xFE91 then 3 else if x <= 0xFE92 then 1 else if x <= 0xFE93 then 0 else if x <= 0xFE94 then 1
    else if x <= 0xFE95 then 0 else if x <= 0xFE96 then 2 else if x <= 0xFE97 then 3 else if x <= 0xFE98 then 1
    else if x <= 0xFE99 then 0 else if x <= 0xFE9A then 2 else if x <= 0xFE9B then 3 else if x <= 0xFE9C then 1
    else if x <= 0xFE9D then 0 else if x <= 0xFE9E then 2 else if x <= 0xFE9F then 3 else if x <= 0xFEA0 then 1
    else if x <= 0xFEA1 then 0 else if x <= 0xFEA2 then 2 else if x <= 0xFEA3 then 3 else if x <= 0xFEA4 then 1
    else if x <= 0xFEA5 then 0 else if x <= 0xFEA6 then 2 else if x <= 0xFEA7 then 3 else if x <= 0xFEA8 then 1
    else if x <= 0xFEA9 then 0 else if x <= 0xFEAA then 1 else if x <= 0xFEAB then 0 else if x <= 0xFEAC then 1
    else if x <= 0xFEAD then 0 else if x <= 0xFEAE then 1 else if x <= 0xFEAF then 0 else if x <= 0xFEB0 then 1
    else if x <= 0xFEB1 then 0 else if x <= 0xFEB2 then 2 else if x <= 0xFEB3 then 3 else if x <= 0xFEB4 then 1
    else if x <= 0xFEB5 then 0 else if x <= 0xFEB6 then 2 else if x <= 0xFEB7 then 3 else if x <= 0xFEB8 then 1
    else if x <= 0xFEB9 then 0 else if x <= 0xFEBA then 2 else if x <= 0xFEBB then 3 else if x <= 0xFEBC then 1
    else if x <= 0xFEBD then 0 else if x <= 0xFEBE then 2 else if x <= 0xFEBF then 3 else if x <= 0xFEC0 then 1
    else if x <= 0xFEC1 then 0 else if x <= 0xFEC2 then 2 else if x <= 0xFEC3 then 3 else if x <= 0xFEC4 then 1
    else if x <= 0xFEC5 then 0 else if x <= 0xFEC6 then 2 else if x <= 0xFEC7 then 3 else if x <= 0xFEC8 then 1
    else if x <= 0xFEC9 then 0 else if x <= 0xFECA then 2 else if x <= 0xFECB then 3 else if x <= 0xFECC then 1
    else if x <= 0xFECD then 0 else if x <= 0xFECE then 2 else if x <= 0xFECF then 3 else if x <= 0xFED0 then 1
    else if x <= 0xFED1 then 0 else if x <= 0xFED2 then 2 else if x <= 0xFED3 then 3 else if x <= 0xFED4 then 1
    else if x <= 0xFED5 then 0 else if x <= 0xFED6 then 2 else if x <= 0xFED7 then 3 else if x <= 0xFED8 then 1
    else if x <= 0xFED9 then 0 else if x <= 0xFEDA then 2 else if x <= 0xFEDB then 3 else if x <= 0xFEDC then 1
    else if x <= 0xFEDD then 16 else if x <= 0xFEDE then 18 else if x <= 0xFEDF then 19
    else if x <= 0xFEE0 then 17 else if x <= 0xFEE1 then 0 else if x <= 0xFEE2 then 2
    else if x <= 0xFEE3 then 3 else if x <= 0xFEE4 then 1 else if x <= 0xFEE5 then 0 else if x <= 0xFEE6 then 2
    else if x <= 0xFEE7 then 3 else if x <= 0xFEE8 then 1 else if x <= 0xFEE9 then 0 else if x <= 0xFEEA then 2
    else if x <= 0xFEEB then 3 else if x <= 0xFEEC then 1 else if x <= 0xFEED then 0 else if x <= 0xFEEE then 1
    else if x <= 0xFEEF then 0 else if x <= 0xFEF0 then 1 else if x <= 0xFEF1 then 0 else if x <= 0xFEF2 then 2
    else if x <= 0xFEF3 then 3 else if x <= 0xFEF4 then 1 else if x <= 0xFEF5 then 0 else if x <= 0xFEF6 then 1
    else if x <= 0xFEF7 then 0 else if x <= 0xFEF8 then 1 else if x <= 0xFEF9 then 0 else if x <= 0xFEFA then 1
    else if x <= 0xFEFB then 0 else 1
  }

  function Link(x: nat): nat
  {
    if 0x0622 <= x <= 0x06D3 then Link06(x)
    else if x == 0x200D then 3
    else if 0x206D <= x <= 0x206F then 4
    else if 0xFE70 <= x <= 0xFEFC then LinkFE(x)
    else 0
  }

  predicate HasShapes(link: nat) { link / 256 > 0 }
  predicate IsAlef(link: nat) { link / 32 % 2 == 1 }
  predicate IsLam(link: nat) { link / 16 % 2 == 1 }
  predicate Irrelevant(link: nat) { link / 4 % 2 == 1 }

  /** The code of the lam-alef ligature for an alef, or 0. */
  function Ligature(x: nat): nat
  {
    if x == 0x0622 then 0x065C
    else if x == 0x0623 then 0x065D
    else if x == 0x0625 then 0x065E
    else if x == 0x0627 then 0x065F
    else 0
  }

  function ShapeOf(next: nat, last: nat, curr: nat): nat
  {
    Shapes[next % 4][last % 4][curr % 4]
  }

  /** The presentation form of a letter among its neighbours. */
  function Form(next: nat, last: nat, curr: nat): nat
  {
    0xFE70 + curr / 256 + ShapeOf(next, last, curr)
  }

  predicate IsForm(y: nat) { 0xFE70 <= y <= 0xFEF4 }
  predicate IsLigature(y: nat) { 0xFEF5 <= y <= 0xFEFC }

  /** The letter of each presentation form U+FE70 to U+FEFC, by runs of equal entries. */
  function Letter(y: nat): nat
  {
    if y <= 0xFE71 then 0x064B else if y <= 0xFE73 then 0x064C else if y <= 0xFE75 then 0x064D
    else if y <= 0xFE77 then 0x064E else if y <= 0xFE79 then 0x064F else if y <= 0xFE7B then 0x0650
    else if y <= 0xFE7D then 0x0651 else if y <= 0xFE7F then 0x0652 else if y <= 0xFE80 then 0x0621
    else if y <= 0xFE82 then 0x0622 else if y <= 0xFE84 then 0x0623 else if y <= 0xFE86 then 0x0624
    else if y <= 0xFE88 then 0x0625 else if y <= 0xFE8C then 0x0626 else if y <= 0xFE8E then 0x0627
    else if y <= 0xFE92 then 0x0628 else if y <= 0xFE94 then 0x0629 else if y <= 0xFE98 then 0x062A
    else if y <= 0xFE9C then 0x062B else if y <= 0xFEA0 then 0x062C else if y <= 0xFEA4 then 0x062D
    else if y <= 0xFEA8 then 0x062E else if y <= 0xFEAA then 0x062F else if y <= 0xFEAC then 0x0630
    else if y <= 0xFEAE then 0x0631 else if y <= 0xFEB0 then 0x0632 else if y <= 0xFEB4 then 0x0633
    else if y <= 0xFEB8 then 0x0634 else if y <= 0xFEBC then 0x0635 else if y <= 0xFEC0 then 0x0636
    else if y <= 0xFEC4 then 0x0637 else if y <= 0xFEC8 then 0x0638 else if y <= 0xFECC then 0x0639
    else if y <= 0xFED0 then 0x063A else if y <= 0xFED4 then 0x0641 else if y <= 0xFED8 then 0x0642
    else if y <= 0xFEDC then 0x0643 else if y <= 0xFEE0 then 0x0644 else if y <= 0xFEE4 then 0x0645
    else if y <= 0xFEE8 then 0x0646 else if y <= 0xFEEC then 0x0647 else if y <= 0xFEEE then 0x0648
    else if y <= 0xFEF0 then 0x0649 else if y <= 0xFEF4 then 0x064A else if y <= 0xFEF6 then 0x065C
    else if y <= 0xFEF8 then 0x065D else if y <= 0xFEFA then 0x065E else 0x065F
  }

  const AlefTypes: seq<nat> := [1570, 1570, 1571, 1571, 1573, 1573, 1575, 1575]

  function AlefOf(y: nat): nat
    requires IsLigature(y)
  {
    AlefTypes[y - 0xFEF5]
  }

  // ------------------------------------------------------------------ what the tables say

  predicate IsMark(x: nat) { 0x064B <= x <= 0x0652 }

  lemma ShapeRange(next: nat, last: nat, curr: nat)
    ensures ShapeOf(next, last, curr) <= 3
    ensures curr % 4 == 1 ==> ShapeOf(next, last, curr) <= 1
  {}

  predicate EntryOk(x: nat, link: nat)
  {
    && (Irrelevant(link) <==> IsMark(x) || x == 0x0670)
    && (Irrelevant(link) ==> link == 4)
    && (IsLam(link) <==> x == Lam)
    && (HasShapes(link) && IsAlef(link) <==> Ligature(x) != 0)
  }

  lemma LinksFirst(x: nat)
    requires 0x0622 <= x <= 0x063A
    ensures EntryOk(x, Link06(x))
  {}

  lemma LinksLast(x: nat)
    requires 0x063B <= x <= 0x06D3
    ensures EntryOk(x, Link06(x))
  {}

  lemma Links06(x: nat)
    requires 0x0622 <= x <= 0x06D3
    ensures EntryOk(x, Link(x))
  {
    hide Link06, EntryOk;
    if x <= 0x063A {
      LinksFirst(x);
    } else {
      LinksLast(x);
    }
  }

  predicate FormEntryOk(x: nat, link: nat)
  {
    !Irrelevant(link) && !HasShapes(link) && (IsLam(link) <==> 0xFEDD <= x <= 0xFEE0)
  }

  lemma LinksForms(x: nat)
    requires 0xFE70 <= x <= 0xFEB0
    ensures FormEntryOk(x, LinkFE(x))
  {}

  lemma LinksLaterForms(x: nat)
    requires 0xFEB1 <= x <= 0xFEFC
    ensures FormEntryOk(x, LinkFE(x))
  {}

  lemma LinksFE(x: nat)
    requires 0xFE70 <= x <= 0xFEFC
    ensures FormEntryOk(x, Link(x))
  {
    hide LinkFE, FormEntryOk;
    if x <= 0xFEB0 {
      LinksForms(x);
    } else {
      LinksLaterForms(x);
    }
  }

  predicate IrrelevantUnit(x: nat) { IsMark(x) || x == 0x0670 || 0x206D <= x <= 0x206F }

  /** What the links say of a unit. */
  lemma LinkFacts(x: nat)
    ensures Irrelevant(Link(x)) <==> IrrelevantUnit(x)
    ensures Irrelevant(Link(x)) ==> Link(x) == 4
    ensures IsLam(Link(x)) <==> x == Lam || 0xFEDD <= x <= 0xFEE0
    ensures HasShapes(Link(x)) && IsAlef(Link(x)) <==> Ligature(x) != 0
  {
    hide Link06, LinkFE;
    if 0x0622 <= x <= 0x06D3 {
      Links06(x);
    } else if 0xFE70 <= x <= 0xFEFC {
      LinksFE(x);
    }
  }

  /** The forms that can be chosen are forms of the letter: two for a letter that links to the right only, four
      for one that links to both sides. */
  predicate FormsOk(x: nat, link: nat)
  {
    HasShapes(link) ==>
      (link % 4 == 1 || link % 4 == 3) && link / 256 + link % 4 <= 0x84
      && Letter(0xFE70 + link / 256) == x && Letter(0xFE71 + link / 256) == x
      && (link % 4 == 3 ==> Letter(0xFE72 + link / 256) == x && Letter(0xFE73 + link / 256) == x)
  }

  lemma FormsFirst(x: nat)
    requires 0x0622 <= x <= 0x062D
    ensures FormsOk(x, Link06(x))
  {}

  lemma FormsMiddle(x: nat)
    requires 0x062E <= x <= 0x063A
    ensures FormsOk(x, Link06(x))
  {}

  lemma FormsLast(x: nat)
    requires 0x063B <= x <= 0x064A
    ensures FormsOk(x, Link06(x))
  {}

  /** Every form chosen for a letter is a form of that letter. */
  lemma FormOfLetter(x: nat, next: nat, last: nat)
    requires HasShapes(Link(x)) && !(0x065C <= x <= 0x065F)
    ensures IsForm(Form(next, last, Link(x))) && Letter(Form(next, last, Link(x))) == x
  {
    hide ShapeOf, Link06, LinkFE, Letter;
    ShapeRange(next, last, Link(x));
    OnlyLetters(x);
    if x <= 0x062D {
      FormsFirst(x);
    } else if x <= 0x063A {
      FormsMiddle(x);
    } else {
      FormsLast(x);
    }
  }

  lemma OnlyLetters(x: nat)
    requires HasShapes(Link(x)) && !(0x065C <= x <= 0x065F)
    ensures 0x0622 <= x <= 0x064A
  {
    if 0xFE70 <= x <= 0xFEFC {
      LinksFE(x);
    }
  }

  lemma FormOfLigature(x: nat, next: nat, last: nat)
    requires Ligature(x) != 0
    ensures IsLigature(Form(next, last, Link(Ligature(x)))) && AlefOf(Form(next, last, Link(Ligature(x)))) == x
    ensures !Irrelevant(Link(Ligature(x))) && !IsLam(Link(Ligature(x))) && HasShapes(Link(Ligature(x)))
  {
    ShapeRange(next, last, Link(Ligature(x)));
  }

  lemma NotTwoFirst(x: nat)
    requires 0x0622 <= x <= 0x063A
    ensures Link06(x) % 4 != 2
  {}

  lemma NotTwoLast(x: nat)
    requires 0x063B <= x <= 0x06D3
    ensures Link06(x) % 4 != 2
  {}

  /** Only later presentation forms link to the left alone. */
  lemma NotTwo(x: nat)
    requires !(0xFE80 <= x <= 0xFEFC)
    ensures Link(x) % 4 != 2
  {
    hide Link06;
    if 0x0622 <= x <= 0x063A {
      NotTwoFirst(x);
    } else if 0x063B <= x <= 0x06D3 {
      NotTwoLast(x);
    }
  }

  /** A yeh with hamza gets one of its two forms without a link to the left exactly when the next unit that
      matters does not link to it. */
  lemma FormOfYeh(next: nat, last: nat)
    requires next % 4 != 2 && last % 4 != 2
    ensures var y := Form(next, last, Link(0x0626));
            if next % 4 == 0 then y == 0xFE89 || y == 0xFE8A else y == 0xFE8B || y == 0xFE8C
  {}
}
