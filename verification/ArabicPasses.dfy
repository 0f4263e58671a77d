/** The passes beside the choice of forms that always run: a space after a letter of the Seen family holds its
    tail, and a yeh with hamza at the end of a word is written as a yeh and a hamza in the space after it. The
    same passes are undone before deshaping. */
module ArabicPasses {

  import opened ArabicTables
  import opened ArabicShaping
  import opened ArabicMeaning

  const Tail: nat := 0x200B

  predicate IsSeen(y: nat) { y in {0xFEB1, 0xFEB2, 0xFEB5, 0xFEB6, 0xFEB9, 0xFEBA, 0xFEBD, 0xFEBE} }

  predicate IsEndYeh(y: nat) { y == 0xFE89 || y == 0xFE8A }

  /** The yeh without its hamza. */
  function BareYeh(y: nat): nat { if y == 0xFE8A then 0xFEF0 else if y == 0xFE89 then 0xFEEF else y }

  predicate IsBareYeh(y: nat) { y == 0xFEF0 || y == 0xFEEF }

  function HamzaYeh(y: nat): nat { if y == 0xFEF0 then 0xFE8A else 0xFE89 }

  /** In reading order: the unit at a place after both passes, from it and the unit before it. */
  function SeenAt(y: seq<nat>, p: nat): nat
    requires p < |y|
  {
    if y[p] == Space && p > 0 && IsSeen(y[p - 1]) then Tail else y[p]
  }

  function YehAt(y: seq<nat>, p: nat): nat
    requires p < |y|
  {
    if y[p] == Space && p > 0 && IsEndYeh(y[p - 1]) then HamzaForm else BareYeh(y[p])
  }

  function SeenPass(y: seq<nat>): (r: seq<nat>)
    ensures |r| == |y|
  {
    seq(|y|, p requires 0 <= p < |y| => SeenAt(y, p))
  }

  function YehPass(y: seq<nat>): (r: seq<nat>)
    ensures |r| == |y|
  {
    seq(|y|, p requires 0 <= p < |y| => YehAt(y, p))
  }

  /** The place before a place in reading order. */
  function Before(rtl: bool, k: int): int { if rtl then k - 1 else k + 1 }

  /** The unit at place k of the buffer once the places below idx have been visited. */
  function SeenSoFar(s: seq<nat>, rtl: bool, idx: int, k: nat): nat
    requires k < |s|
  {
    var b := Before(rtl, k);
    if 0 <= b < |s| && b < idx && s[k] == Space && IsSeen(s[b]) then Tail else s[k]
  }

  lemma SeenInOrder(s: seq<nat>, rtl: bool, k: nat)
    requires k < |s|
    ensures var p := Raw(|s|, rtl, k); 0 <= p < |s| && SeenSoFar(s, rtl, |s|, k) == SeenAt(InOrder(s, rtl), p)
  {
    InOrderAt(s, rtl, Raw(|s|, rtl, k));
    if Raw(|s|, rtl, k) > 0 {
      InOrderAt(s, rtl, Raw(|s|, rtl, k) - 1);
    }
    hide IsSeen;
  }

  method ShapeSeenNear(buffer: array<nat>, rtl: bool)
    modifies buffer
    ensures InOrder(buffer[..], rtl) == SeenPass(old(InOrder(buffer[..], rtl)))
  {
    ghost var s := buffer[..];
    var length := buffer.Length;
    for idx := 0 to length
      invariant forall k :: 0 <= k < length ==> buffer[k] == SeenSoFar(s, rtl, idx, k)
    {
      if rtl {
        if IsSeen(buffer[idx]) && idx + 1 < length && buffer[idx + 1] == Space {
          buffer[idx + 1] := Tail;
        }
      } else {
        if IsSeen(buffer[idx]) && idx - 1 >= 0 && buffer[idx - 1] == Space {
          buffer[idx - 1] := Tail;
        }
      }
    }
    SeenDone(s, buffer[..], rtl);
  }

  lemma SeenDone(s: seq<nat>, t: seq<nat>, rtl: bool)
    requires |t| == |s| && forall k :: 0 <= k < |s| ==> t[k] == SeenSoFar(s, rtl, |s|, k)
    ensures InOrder(t, rtl) == SeenPass(InOrder(s, rtl))
  {
    forall p | 0 <= p < |s| ensures InOrder(t, rtl)[p] == SeenAt(InOrder(s, rtl), p) {
      InOrderAt(t, rtl, p);
      SeenInOrder(s, rtl, Raw(|s|, rtl, p));
    }
  }

  function YehSoFar(s: seq<nat>, rtl: bool, idx: int, k: nat): nat
    requires k < |s|
  {
    var b := Before(rtl, k);
    if 0 <= b < |s| && b < idx && s[k] == Space && IsEndYeh(s[b]) then HamzaForm
    else if k < idx then BareYeh(s[k])
    else s[k]
  }

  lemma YehInOrder(s: seq<nat>, rtl: bool, k: nat)
    requires k < |s|
    ensures var p := Raw(|s|, rtl, k); 0 <= p < |s| && YehSoFar(s, rtl, |s|, k) == YehAt(InOrder(s, rtl), p)
  {
    InOrderAt(s, rtl, Raw(|s|, rtl, k));
    if Raw(|s|, rtl, k) > 0 {
      InOrderAt(s, rtl, Raw(|s|, rtl, k) - 1);
    }
    hide IsEndYeh, BareYeh;
  }

  method ShapeYehHamzaTwoCellNear(buffer: array<nat>, rtl: bool)
    modifies buffer
    ensures InOrder(buffer[..], rtl) == YehPass(old(InOrder(buffer[..], rtl)))
  {
    ghost var s := buffer[..];
    var length := buffer.Length;
    for counter := 0 to length
      invariant forall k :: 0 <= k < length ==> buffer[k] == YehSoFar(s, rtl, counter, k)
    {
      if buffer[counter] == 0xFE8A {
        buffer[counter] := 0xFEF0;
        PutHamza(buffer, rtl, counter);
      }
      if buffer[counter] == 0xFE89 {
        buffer[counter] := 0xFEEF;
        PutHamza(buffer, rtl, counter);
      }
    }
    YehDone(s, buffer[..], rtl);
  }

  /** The space after the yeh, in reading order, takes the hamza. */
  method PutHamza(buffer: array<nat>, rtl: bool, counter: nat)
    requires counter < buffer.Length
    modifies buffer
    ensures forall k :: 0 <= k < buffer.Length ==>
              buffer[k] == if Before(rtl, k) == counter && old(buffer[k]) == Space then HamzaForm else old(buffer[k])
  {
    if rtl {
      if counter + 1 < buffer.Length && buffer[counter + 1] == Space {
        buffer[counter + 1] := HamzaForm;
      }
    } else {
      if counter - 1 >= 0 && buffer[counter - 1] == Space {
        buffer[counter - 1] := HamzaForm;
      }
    }
  }

  lemma YehDone(s: seq<nat>, t: seq<nat>, rtl: bool)
    requires |t| == |s| && forall k :: 0 <= k < |s| ==> t[k] == YehSoFar(s, rtl, |s|, k)
    ensures InOrder(t, rtl) == YehPass(InOrder(s, rtl))
  {
    forall p | 0 <= p < |s| ensures InOrder(t, rtl)[p] == YehAt(InOrder(s, rtl), p) {
      InOrderAt(t, rtl, p);
      YehInOrder(s, rtl, Raw(|s|, rtl, p));
    }
  }

  // ------------------------------------------------------------------ undoing the passes

  function UnSeen(z: seq<nat>): (r: seq<nat>)
    ensures |r| == |z|
  {
    seq(|z|, p requires 0 <= p < |z| => if z[p] == Tail then Space else z[p])
  }

  function UnYehAt(z: seq<nat>, p: nat): nat
    requires p < |z|
  {
    if z[p] == HamzaForm && p > 0 && IsBareYeh(z[p - 1]) then Space
    else if IsBareYeh(z[p]) && p + 1 < |z| && z[p + 1] == HamzaForm then HamzaYeh(z[p])
    else z[p]
  }

  function UnYeh(z: seq<nat>): (r: seq<nat>)
    ensures |r| == |z|
  {
    seq(|z|, p requires 0 <= p < |z| => UnYehAt(z, p))
  }

  method DeshapeSeenNear(buffer: array<nat>)
    modifies buffer
    ensures buffer[..] == UnSeen(old(buffer[..]))
  {
    for idx := 0 to buffer.Length
      invariant forall k :: 0 <= k < idx ==> buffer[k] == if old(buffer[k]) == Tail then Space else old(buffer[k])
      invariant forall k :: idx <= k < buffer.Length ==> buffer[k] == old(buffer[k])
    {
      if buffer[idx] == Tail {
        buffer[idx] := Space;
      }
    }
  }

  method DeshapeYehHamzaTwoCellNear(buffer: array<nat>)
    modifies buffer
    ensures buffer[..] == UnYeh(old(buffer[..]))
  {
    ghost var s := buffer[..];
    var length := buffer.Length;
    for counter := 0 to length
      invariant forall k :: 0 <= k < counter ==> buffer[k] == UnYehAt(s, k)
      invariant counter < length ==>
                  buffer[counter] == if counter > 0 && IsBareYeh(s[counter - 1]) && s[counter] == HamzaForm then Space
                                     else s[counter]
      invariant forall k :: counter < k < length ==> buffer[k] == s[k]
    {
      if counter + 1 < length && buffer[counter] == 0xFEF0 && buffer[counter + 1] == HamzaForm {
        buffer[counter] := 0xFE8A;
        buffer[counter + 1] := Space;
      }
      if counter + 1 < length && buffer[counter] == 0xFEEF && buffer[counter + 1] == HamzaForm {
        buffer[counter] := 0xFE89;
        buffer[counter + 1] := Space;
      }
    }
  }

  // ------------------------------------------------------------------ what comes back

  /** Shaped units as they come back: a yeh with hamza at the end of a word keeps its hamza only before a space,
      and every tail becomes a space. */
  function RestoredAt(y: seq<nat>, p: nat): nat
    requires p < |y|
  {
    if IsEndYeh(y[p]) && !(p + 1 < |y| && y[p + 1] == Space) then BareYeh(y[p])
    else if y[p] == Tail then Space
    else y[p]
  }

  function Restored(y: seq<nat>): (r: seq<nat>)
    ensures |r| == |y|
  {
    seq(|y|, p requires 0 <= p < |y| => RestoredAt(y, p))
  }

  function Passed(y: seq<nat>): (r: seq<nat>)
    ensures |r| == |y|
  {
    YehPass(SeenPass(y))
  }

  /** A unit after both passes and after undoing the tails, with the hamza still in its cell. */
  lemma PassedAt(y: seq<nat>, p: nat)
    requires p < |y| && HamzaForm !in y
    ensures var z := Passed(y)[p];
            z == (if y[p] == Space && p > 0 && IsEndYeh(y[p - 1]) then HamzaForm
                  else if y[p] == Space && p > 0 && IsSeen(y[p - 1]) then Tail
                  else BareYeh(y[p]))
  {
    var w := SeenPass(y);
    assert w[p] == SeenAt(y, p) && Passed(y)[p] == YehAt(w, p);
    if p > 0 {
      assert w[p - 1] == SeenAt(y, p - 1);
    }
  }

  /** Undoing the passes on any stretch of the passed units, unless it cuts a yeh from its hamza. */
  lemma UndonePasses(y: seq<nat>, m: nat)
    requires m <= |y| && HamzaForm !in y && (0 < m < |y| ==> Passed(y)[m] != HamzaForm)
    ensures UnYeh(UnSeen(Passed(y)[..m])) == Restored(y)[..m]
  {
    var z := Passed(y)[..m];
    forall p | 0 <= p < m ensures UnYehAt(UnSeen(z), p) == RestoredAt(y, p) {
      UndoneAt(y, m, p);
    }
  }

  lemma UndoneAt(y: seq<nat>, m: nat, p: nat)
    requires p < m <= |y| && HamzaForm !in y && (0 < m < |y| ==> Passed(y)[m] != HamzaForm)
    ensures UnYehAt(UnSeen(Passed(y)[..m]), p) == RestoredAt(y, p)
  {
    PassedAt(y, p);
    if p > 0 {
      PassedAt(y, p - 1);
    }
    if p + 1 < |y| {
      PassedAt(y, p + 1);
    }
    hide Passed;
    var z := Passed(y)[..m];
    assert UnSeen(z)[p] == if z[p] == Tail then Space else z[p];
    assert p > 0 ==> UnSeen(z)[p - 1] == if z[p - 1] == Tail then Space else z[p - 1];
    assert p + 1 < m ==> UnSeen(z)[p + 1] == if z[p + 1] == Tail then Space else z[p + 1];
  }
}
