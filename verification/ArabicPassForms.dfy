/** What the two passes beside the choice of forms do to a buffer, and what undoing them does, place by place. */
module ArabicPassForms {

  import opened ArabicShaping
  import opened ArabicTables
  import opened ArabicPasses
  import opened ArabicDeshaping

  /** An isolated or final form of seen, sheen, sad or dad. The forms of each stand together: isolated, final, initial,
      medial. */
  predicate TailOpen(y: nat) { 0xFEB1 <= y <= 0xFEC0 && (y - 0xFEB1) % 4 < 2 }

  /** A unit after the passes, from it and the unit read before it. Only a space is filled, with the hamza of a yeh or
      with the tail of a letter; the yeh itself is written without its hamza. */
  function Filled(y: nat, before: nat): nat
  {
    if y == 0x20 && (before == 0xFE89 || before == 0xFE8A) then 0xFE80
    else if y == 0x20 && TailOpen(before) then 0x200B
    else if y == 0xFE8A then 0xFEF0
    else if y == 0xFE89 then 0xFEEF
    else y
  }

  lemma SeenForms(y: nat)
    ensures IsSeen(y) <==> TailOpen(y)
  {}

  /** Right to left the unit read before stands before, left to right it stands after. */
  lemma PassesByPlace(s: seq<nat>, rtl: bool, z: seq<nat>, k: nat)
    requires InOrder(z, rtl) == Passed(InOrder(s, rtl)) && k < |s|
    ensures |z| == |s|
    ensures var b := if rtl then k - 1 else k + 1;
            z[k] == Filled(s[k], if 0 <= b < |s| then s[b] else 0)
  {
    var y := InOrder(s, rtl);
    assert |z| == |InOrder(z, rtl)| == |Passed(y)| == |s|;
    var p := Raw(|s|, rtl, k);
    InOrderAt(s, rtl, p);
    InOrderAt(z, rtl, p);
    if p > 0 {
      InOrderAt(s, rtl, p - 1);
      SeenForms(y[p - 1]);
    }
    PassedPlace(y, p);
    hide Filled, TailOpen, Passed, IsSeen;
  }

  lemma PassedPlace(y: seq<nat>, p: nat)
    requires p < |y|
    ensures Passed(y)[p] == Filled(y[p], if p > 0 then y[p - 1] else 0)
  {
    var w := SeenPass(y);
    assert w[p] == SeenAt(y, p) && Passed(y)[p] == YehAt(w, p);
    if p > 0 {
      SeenForms(y[p - 1]);
      assert w[p - 1] == SeenAt(y, p - 1);
    }
  }

  /** A unit after undoing the passes, from it and its neighbours: a tail is a space again, a hamza after a bare yeh is
      a space again, and the yeh has its hamza back. Nothing else changes. */
  function Emptied(before: nat, z: nat, after: nat): nat
  {
    if z == 0x200B || (z == 0xFE80 && (before == 0xFEF0 || before == 0xFEEF)) then 0x20
    else if z == 0xFEF0 && after == 0xFE80 then 0xFE8A
    else if z == 0xFEEF && after == 0xFE80 then 0xFE89
    else z
  }

  lemma UndoneByPlace(z: seq<nat>, p: nat)
    requires p < |z|
    ensures UnYeh(UnSeen(z))[p] ==
            Emptied(if p > 0 then z[p - 1] else 0, z[p], if p + 1 < |z| then z[p + 1] else 0)
  {
    var u := UnSeen(z);
    assert UnYeh(u)[p] == UnYehAt(u, p);
    assert u[p] == if z[p] == Tail then 0x20 else z[p];
    if p > 0 {
      assert u[p - 1] == if z[p - 1] == Tail then 0x20 else z[p - 1];
    }
    if p + 1 < |z| {
      assert u[p + 1] == if z[p + 1] == Tail then 0x20 else z[p + 1];
    }
  }

  // ------------------------------------------------------------------ a ligature taken apart

  /** The alef of a ligature: each has an isolated and a final form. */
  lemma AlefOfLigature(y: nat)
    requires 0xFEF5 <= y <= 0xFEFC
    ensures AlefOf(y) == if y <= 0xFEF6 then 0x0622 else if y <= 0xFEF8 then 0x0623
                         else if y <= 0xFEFA then 0x0625 else 0x0627
  {}

  /** Right to left the units after the ligature move on by one and the last one, a space, is gone; left to right the
      units before it move back by one and the first one, a space, is gone. Lam stands before alef. */
  lemma ExpandedByPlace(s: seq<nat>, i: nat, rtl: bool, k: nat)
    requires i < |s| && k < |s| && IsLigature(s[i]) && (if rtl then s[|s| - 1] == 0x20 else s[0] == 0x20)
    ensures |Expand(s, i, rtl)| == |s|
    ensures var lam := if rtl then i else i - 1;
            Expand(s, i, rtl)[k] ==
            if k == lam then 0x0644 else if k == lam + 1 then AlefOf(s[i])
            else if rtl then (if k < lam then s[k] else s[k - 1]) else if k < lam then s[k + 1] else s[k]
  {
    hide AlefOf;
  }
}
