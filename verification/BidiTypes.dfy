/** The final type of every character, told by looking ahead and back in the text rather than by patching.
    k holds the raw classes; e the classes in effect, which differ from k only where a delimiter turns a
    character into a block separator. In the second phase both are read in display order. */
module BidiTypes {
  import opened BidiTables

  const NO_DELIM := 0xFFFF

  /** Delimiter state before character i: 0 outside, 1 inside, 2 at the second of two closing delimiters. */
  function DelimState(c: seq<int>, i: nat, d1: int, d2: int): (st: int)
    requires i <= |c|
    ensures 0 <= st <= 2
  {
    if i == 0 then 0
    else
      var st := DelimState(c, i - 1, d1, d2);
      if st == 0 then (if c[i - 1] == d1 then 1 else 0)
      else if st == 1 then
        (if c[i - 1] != d2 then 1 else if i < |c| && c[i] == d2 then 2 else 0)
      else 1
  }

  /** Outside the delimiters, and at the closing one, a character acts as a block separator. */
  function EffectiveClass(c: seq<int>, k: seq<int>, i: nat, d1: int, d2: int): int
    requires i < |c| == |k|
  {
    if d1 == NO_DELIM then k[i]
    else if DelimState(c, i, d1, d2) == 0 then B
    else if DelimState(c, i, d1, d2) == 1 && c[i] == d2 && !(i + 1 < |c| && c[i + 1] == d2) then B
    else k[i]
  }

  function EffectiveClasses(c: seq<int>, k: seq<int>, d1: int, d2: int): (e: seq<int>)
    requires |c| == |k|
    ensures |e| == |k|
    ensures forall i :: 0 <= i < |e| ==> e[i] == k[i] || e[i] == B
  {
    seq(|k|, i requires 0 <= i < |k| => EffectiveClass(c, k, i, d1, d2))
  }

  /** Digits at i follow an Arabic letter: the nearest of B, L, R, AL before i is AL. */
  function Arabic(e: seq<int>, i: nat): bool
    requires i <= |e|
  {
    if i == 0 then false
    else if e[i - 1] == AL then true
    else if e[i - 1] == B || e[i - 1] == L || e[i - 1] == R then false
    else Arabic(e, i - 1)
  }

  function NumberType(e: seq<int>, i: nat): int
    requires i <= |e|
  {
    if Arabic(e, i) then AN else EN
  }

  /** The type a character has on its own and from what precedes it. */
  function Own(e: seq<int>, i: nat, second: bool): (t: int)
    requires i < |e|
    ensures 0 <= t < 8
  {
    if e[i] == B || e[i] == S || e[i] == L || e[i] == R || e[i] == W || e[i] == AN then e[i]
    else if e[i] == AL then R
    else if e[i] == EN then NumberType(e, i)
    else if e[i] == ET then (if i > 0 && Own(e, i - 1, second) == EN then EN else N)
    else if e[i] == NSM && !second && i > 0 then Own(e, i - 1, second)
    else N
  }

  /** The first character after i that is not a raw terminator. */
  function AfterTerminators(k: seq<int>, i: nat): (j: nat)
    requires i < |k|
    ensures i < j <= |k|
    ensures forall m :: i < m < j ==> k[m] == ET
    ensures j < |k| ==> k[j] != ET
    decreases |k| - i
  {
    if i + 1 < |k| && k[i + 1] == ET then AfterTerminators(k, i + 1) else i + 1
  }

  /** The final type of character i when only the characters before h have been read: terminators before a
      European number, and a single separator between two numbers, join the number. */
  function FinalTo(e: seq<int>, k: seq<int>, i: nat, h: nat, second: bool): (t: int)
    requires i < h <= |e| == |k|
    ensures 0 <= t < 8
  {
    if k[i] == ET && AfterTerminators(k, i) < h
       && e[AfterTerminators(k, i)] == EN && !Arabic(e, AfterTerminators(k, i)) then EN
    else if k[i] == ES && 0 < i && i + 1 < h && k[i - 1] == EN && e[i + 1] == EN && !Arabic(e, i + 1) then EN
    else if k[i] == CS && 0 < i && i + 1 < h && k[i - 1] == EN && e[i + 1] == EN then NumberType(e, i + 1)
    else if k[i] == CS && 0 < i && i + 1 < h && e[i + 1] == AN
            && (if second then k[i - 1] == AN else Own(e, i - 1, false) == AN) then AN
    else Own(e, i, second)
  }

  function FinalTypes(e: seq<int>, k: seq<int>, second: bool): (t: seq<int>)
    requires |e| == |k|
    ensures |t| == |k|
    ensures forall i :: 0 <= i < |t| ==> 0 <= t[i] < 8
  {
    seq(|k|, i requires 0 <= i < |k| => FinalTo(e, k, i, |k|, second))
  }

  /** A character just read has no type but its own. */
  lemma JustRead(e: seq<int>, k: seq<int>, i: nat, second: bool)
    requires i < |e| == |k|
    ensures FinalTo(e, k, i, i + 1, second) == Own(e, i, second)
  {}

  /** Reading character i changes the types of the characters before it in these cases only. */
  lemma ReadNext(e: seq<int>, k: seq<int>, j: nat, i: nat, second: bool)
    requires j < i < |e| == |k|
    requires forall m :: 0 <= m < |e| ==> e[m] == k[m] || e[m] == B
    ensures FinalTo(e, k, j, i + 1, second) ==
            if k[j] == ET && (forall m :: j < m < i ==> k[m] == ET) && e[i] == EN && !Arabic(e, i) then EN
            else if j == i - 1 && 0 < j && k[j] == ES && k[j - 1] == EN && e[i] == EN && !Arabic(e, i) then EN
            else if j == i - 1 && 0 < j && k[j] == CS && k[j - 1] == EN && e[i] == EN then NumberType(e, i)
            else if j == i - 1 && 0 < j && k[j] == CS && e[i] == AN
                    && (if second then k[j - 1] == AN else Own(e, j - 1, false) == AN) then AN
            else FinalTo(e, k, j, i, second)
  {
    var a := AfterTerminators(k, j);
    if forall m :: j < m < i ==> k[m] == ET {
      if e[i] == EN {
        assert a == i;
      }
    } else {
      var m :| j < m < i && k[m] != ET;
      assert a <= m;
    }
  }
}
