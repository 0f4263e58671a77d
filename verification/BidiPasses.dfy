/** The passes that follow the level machine: run reversal, character output, marker removal and the inverse
    map. */
module BidiPasses {
  import opened BidiTables
  import opened BidiReorder

  // ------------------------------------------------------------------ pass 2

  /** Reverses a[lower..upper], both ends included. */
  method InvertInts(a: array<int>, lower: int, upper: int)
    requires 0 <= lower && lower <= upper + 1 && upper < a.Length
    modifies a
    ensures forall i :: lower <= i <= upper ==> a[i] == old(a[lower + upper - i])
    ensures forall i :: 0 <= i < a.Length && !(lower <= i <= upper) ==> a[i] == old(a[i])
  {
    var lo, hi := lower, upper;
    while lo < hi
      invariant lower <= lo <= hi + 1 && hi <= upper && lo + hi == lower + upper
      invariant forall i :: lower <= i < lo || hi < i <= upper ==> a[i] == old(a[lower + upper - i])
      invariant forall i :: lo <= i <= hi ==> a[i] == old(a[i])
      invariant forall i :: 0 <= i < a.Length && !(lower <= i <= upper) ==> a[i] == old(a[i])
    {
      a[lo], a[hi] := a[hi], a[lo];
      lo, hi := lo + 1, hi - 1;
    }
  }

  lemma RunBounds(levels: seq<int>, k: int, f: nat, t: nat, x: nat)
    requires f <= x <= t < |levels|
    requires forall i :: f <= i <= t ==> levels[i] >= k
    requires f == 0 || levels[f - 1] < k
    requires t == |levels| - 1 || levels[t + 1] < k
    ensures Mirrored(levels, k, x) == f + t - x
  {
    assert RunStart(levels, k, x) == f;
    assert RunEnd(levels, k, x) == t;
  }

  /** Reverses every stretch of levels >= work. */
  method ReverseRuns(map': array<int>, levels: array<int>, work: int)
    requires map' != levels && map'.Length == levels.Length
    modifies map'
    ensures forall x :: 0 <= x < map'.Length ==> map'[x] == old(map'[Mirrored(levels[..], work, x)])
  {
    ghost var l, m := levels[..], map'[..];
    var i := 0;
    while i < map'.Length
      invariant 0 <= i <= map'.Length && levels[..] == l
      invariant i == 0 || i == map'.Length || l[i - 1] < work || l[i] < work
      invariant forall x :: 0 <= x < i ==> map'[x] == m[Mirrored(l, work, x)]
      invariant forall x :: i <= x < map'.Length ==> map'[x] == m[x]
    {
      if levels[i] < work {
        i := i + 1;
      } else {
        var flipFrom := i;
        i := i + 1;
        while i < map'.Length && levels[i] >= work
          invariant flipFrom < i <= map'.Length
          invariant forall x :: flipFrom <= x < i ==> l[x] >= work
        {
          i := i + 1;
        }
        InvertInts(map', flipFrom, i - 1);
        forall x | flipFrom <= x < i ensures map'[x] == m[Mirrored(l, work, x)] {
          RunBounds(l, work, flipFrom, i - 1, x);
        }
      }
    }
  }

  function Identity(n: nat): (q: seq<int>)
    ensures IsPermutation(q, n)
  {
    seq(n, i => i)
  }

  /** Starts the map (except in the second phase) and finds the range of the levels. */
  method StartMap(map': array<int>, levels: array<int>, phase: int) returns (lowest: int, highest: int)
    requires map' != levels && map'.Length == levels.Length
    requires forall i :: 0 <= i < levels.Length ==> 0 <= levels[i] <= 100
    modifies map'
    ensures map'[..] == if phase == 2 then old(map'[..]) else Identity(map'.Length)
    ensures forall x :: 0 <= x < levels.Length ==> lowest <= levels[x] <= highest
    ensures 0 <= lowest <= 100 && 0 <= highest
  {
    lowest, highest := 100, 0;
    var i := 0;
    while i < map'.Length
      invariant 0 <= i <= map'.Length
      invariant forall x :: 0 <= x < i ==> map'[x] == if phase == 2 then old(map'[x]) else x
      invariant forall x :: i <= x < map'.Length ==> map'[x] == old(map'[x])
      invariant 0 <= lowest <= 100 && 0 <= highest
      invariant forall x :: 0 <= x < i ==> lowest <= levels[x] <= highest
    {
      if phase != 2 {
        map'[i] := i;
      }
      if levels[i] < lowest {
        lowest := levels[i];
      }
      if levels[i] > highest {
        highest := levels[i];
      }
      i := i + 1;
    }
  }

  /** Reverses for every level from highest down to lowest. */
  method ReverseLevels(map': array<int>, levels: array<int>, lowest: int, highest: int)
    requires map' != levels && map'.Length == levels.Length
    modifies map'
    ensures map'[..] == Permuted(old(map'[..]), DisplayMap(levels[..], lowest, highest))
  {
    ghost var l, base := levels[..], map'[..];
    var workLevel := highest;
    while workLevel >= lowest
      invariant levels[..] == l && highest >= workLevel
      invariant workLevel >= lowest - 1 || workLevel == highest
      invariant forall x :: 0 <= x < map'.Length ==> map'[x] == base[Displayed(l, workLevel + 1, highest, x)]
      decreases workLevel - lowest
    {
      ReverseRuns(map', levels, workLevel);
      workLevel := workLevel - 1;
    }
    forall x | 0 <= x < map'.Length ensures map'[x] == base[Displayed(l, lowest, highest, x)] {
      assert highest < lowest ==> Displayed(l, lowest, highest, x) == Displayed(l, workLevel + 1, highest, x) == x;
    }
  }

  /** Builds the reordering map from the levels, on top of the map of the first phase in the second. The
      characters are shown by levels: the source positions listed are those of the map before, taken in the
      one order rule L2 gives to the levels; without reversal they stay where they are. */
  method Pass2(map': array<int>, levels: array<int>, phase: int, reverse: bool, rtlOut: bool)
    returns (ghost q: seq<int>)
    requires map' != levels && map'.Length == levels.Length
    requires forall i :: 0 <= i < levels.Length ==> 0 <= levels[i] <= 100
    modifies map'
    ensures IsPermutation(q, map'.Length)
    ensures map'[..] == Permuted(if phase == 2 then old(map'[..]) else Identity(map'.Length), q)
    ensures if reverse then ShownByLevels(q, levels[..], if rtlOut then 1 else 0) else q == Identity(map'.Length)
  {
    var lowest, highest := StartMap(map', levels, phase);
    if !reverse {
      q := Identity(map'.Length);
      return;
    }
    if rtlOut {
      lowest := if lowest % 2 == 0 then lowest else lowest + 1;
    } else {
      lowest := if lowest % 2 == 1 then lowest else lowest + 1;
    }
    ReverseLevels(map', levels, lowest, highest);
    q := DisplayMap(levels[..], lowest, highest);
    ReversalsShowByLevels(levels[..], lowest, highest, if rtlOut then 1 else 0);
  }

  // ------------------------------------------------------------------ pass 3

  const SYM_PAIRS: seq<(int, int)> := [
    (40, 41), (41, 40), (60, 62), (62, 60), (91, 93), (93, 91), (123, 125), (125, 123),
    (171, 187), (187, 171), (8317, 8318), (8318, 8317), (8333, 8334), (8334, 8333),
    (9001, 9002), (9002, 9001), (65113, 65114), (65114, 65113), (65115, 65116), (65116, 65115),
    (65117, 65118), (65118, 65117), (65124, 65125), (65125, 65124)]

  type Pairs = seq<(int, int)>

  predicate Sorted(p: Pairs) { forall i, j :: 0 <= i < j < |p| ==> p[i].0 < p[j].0 }

  /** Neighbouring entries are each other's images. */
  predicate Mutual(p: Pairs)
  {
    && |p| % 2 == 0
    && forall i :: 0 <= i < |p| ==> p[i].1 == p[if i % 2 == 0 then i + 1 else i - 1].0
  }

  lemma PairsAreSorted()
    ensures Sorted(SYM_PAIRS)
  {
    var p := SYM_PAIRS;
    assert p[0].0 < p[1].0 < p[2].0 < p[3].0 < p[4].0 < p[5].0 < p[6].0 < p[7].0;
    assert p[7].0 < p[8].0 < p[9].0 < p[10].0 < p[11].0 < p[12].0 < p[13].0 < p[14].0 < p[15].0;
    assert p[15].0 < p[16].0 < p[17].0 < p[18].0 < p[19].0 < p[20].0 < p[21].0 < p[22].0 < p[23].0;
  }

  lemma PairsAreMutual()
    ensures Mutual(SYM_PAIRS)
  {
    var p := SYM_PAIRS;
    forall i | 0 <= i < |p| ensures p[i].1 == p[if i % 2 == 0 then i + 1 else i - 1].0 {
      if i < 12 {
        assert i in {0, 1, 2, 3, 4, 5, 6, 7, 8, 9, 10, 11};
      } else {
        assert i in {12, 13, 14, 15, 16, 17, 18, 19, 20, 21, 22, 23};
      }
    }
  }

  function PairOf(p: Pairs, x: int, from: nat): (i: nat)
    requires from <= |p|
    ensures from <= i <= |p|
    ensures i < |p| ==> p[i].0 == x
    ensures forall j :: from <= j < i ==> p[j].0 != x
    decreases |p| - from
  {
    if from == |p| || p[from].0 == x then from else PairOf(p, x, from + 1)
  }

  function MirrorIn(p: Pairs, x: int): int
  {
    var i := PairOf(p, x, 0);
    if i < |p| then p[i].1 else x
  }

  /** The mirror image of a character: its partner in the pairs, or itself. */
  function Symmetric(x: int): int { MirrorIn(SYM_PAIRS, x) }

  method SearchPairs(p: Pairs, x: int) returns (r: int)
    requires Sorted(p)
    ensures r == MirrorIn(p, x)
  {
    ghost var k := PairOf(p, x, 0);
    var low, high := 0, |p| - 1;
    while low <= high
      invariant 0 <= low <= high + 1 <= |p|
      invariant k < |p| ==> low <= k <= high
      decreases high - low
    {
      var mid := (low + high) / 2;
      var c := p[mid].0;
      if x < c {
        high := mid - 1;
      } else if x > c {
        low := mid + 1;
      } else {
        return p[mid].1;
      }
    }
    return x;
  }

  /** Binary search for the mirror image. */
  method Ucqsymm(x: int) returns (r: int)
    ensures r == Symmetric(x)
  {
    PairsAreSorted();
    r := SearchPairs(SYM_PAIRS, x);
  }

  lemma MirrorTwice(p: Pairs, x: int)
    requires Sorted(p) && Mutual(p)
    ensures MirrorIn(p, MirrorIn(p, x)) == x
  {
    var i := PairOf(p, x, 0);
    if i < |p| {
      var j := if i % 2 == 0 then i + 1 else i - 1;
      assert PairOf(p, p[j].0, 0) == j;
    }
  }

  /** Mirroring twice gives the character back. */
  lemma SymmetricInvolution(x: int)
    ensures Symmetric(Symmetric(x)) == x
  {
    PairsAreSorted();
    PairsAreMutual();
    MirrorTwice(SYM_PAIRS, x);
  }

  datatype Numerals = Nominal | National | Contextual | Any

  /** The output character: digits take the requested shapes and marked neutrals are mirrored. */
  function OutUnit(x: int, origType: int, finalType: int, numerals: Numerals): int
  {
    if origType == EN then
      (if numerals == National || (numerals == Contextual && finalType == AN)
       then (x + 0x0660 - 0x0030) % 0x10000 else x)
    else if origType == AN then
      (if numerals == Nominal then (x - (0x0660 - 0x0030)) % 0x10000 else x)
    else if origType == N_SWAP then Symmetric(x)
    else x
  }

  /** Writes the characters in display order. */
  method Pass3(input: seq<int>, map': array<int>, origType: array<int>, finalType: array<int>, numerals: Numerals)
    returns (out: array<int>)
    requires map'.Length == origType.Length == finalType.Length == |input|
    requires InRange(map'[..], |input|)
    ensures fresh(out) && out.Length == |input|
    ensures forall i :: 0 <= i < |input| ==>
              out[i] == OutUnit(input[map'[i]], origType[map'[i]], finalType[map'[i]], numerals)
  {
    out := new int[|input|];
    var i := 0;
    while i < |input|
      invariant 0 <= i <= |input|
      invariant forall j :: 0 <= j < i ==>
                  out[j] == OutUnit(input[map'[j]], origType[map'[j]], finalType[map'[j]], numerals)
    {
      assert map'[..][i] == map'[i];
      var logPos := map'[i];
      var xchar, xtype := input[logPos], origType[logPos];
      if xtype == EN {
        if numerals == National || (numerals == Contextual && finalType[logPos] == AN) {
          xchar := (xchar + 0x0660 - 0x0030) % 0x10000;
        }
      } else if xtype == AN {
        if numerals == Nominal {
          xchar := (xchar - (0x0660 - 0x0030)) % 0x10000;
        }
      } else if xtype == N_SWAP {
        xchar := Ucqsymm(xchar);
      }
      out[i] := xchar;
      i := i + 1;
    }
  }

  // ------------------------------------------------------------------ marker removal and the inverse map

  const LRM := 0x200E
  const RLM := 0x200F

  predicate IsMarker(x: int) { x == LRM || x == RLM }

  /** The positions of u that hold no marker, in order. */
  function Kept(u: seq<int>): (k: seq<int>)
    ensures |k| <= |u|
    ensures forall i :: 0 <= i < |k| ==> 0 <= k[i] < |u| && !IsMarker(u[k[i]])
    ensures forall i, j :: 0 <= i < j < |k| ==> k[i] < k[j]
  {
    if u == [] then []
    else
      var n := |u| - 1;
      var rest := Kept(u[..n]);
      assert forall i :: 0 <= i < |rest| ==> u[..n][rest[i]] == u[rest[i]];
      if IsMarker(u[n]) then rest else rest + [n]
  }

  /** Every position without a marker is kept. */
  lemma {:induction false} KeptComplete(u: seq<int>, p: nat)
    requires p < |u| && !IsMarker(u[p])
    ensures p in Kept(u)
  {
    var n := |u| - 1;
    if p < n {
      assert u[..n][p] == u[p];
      KeptComplete(u[..n], p);
    } else {
      assert Kept(u)[|Kept(u)| - 1] == n;
    }
  }

  /** The entries of a at the positions ps. */
  function Selected(a: seq<int>, ps: seq<int>): (r: seq<int>)
    requires forall i :: 0 <= i < |ps| ==> 0 <= ps[i] < |a|
    ensures |r| == |ps|
    ensures forall i :: 0 <= i < |ps| ==> r[i] == a[ps[i]]
  {
    seq(|ps|, i requires 0 <= i < |ps| => a[ps[i]])
  }

  /** The first entries of a are those of u at the positions ps. */
  ghost predicate Front(a: array<int>, u: seq<int>, ps: seq<int>)
    reads a
  {
    && |ps| <= a.Length == |u|
    && forall i :: 0 <= i < |ps| ==> 0 <= ps[i] < |u| && a[i] == u[ps[i]]
  }

  /** Entry pos of u, untouched so far, goes behind the ones already moved to the front. */
  method Keep(a: array<int>, ghost u: seq<int>, ghost ps: seq<int>, to: nat, pos: nat)
    requires Front(a, u, ps) && to == |ps| <= pos < a.Length
    requires forall i :: pos <= i < a.Length ==> a[i] == u[i]
    modifies a
    ensures Front(a, u, ps + [pos])
    ensures forall i :: pos < i < a.Length ==> a[i] == u[i]
  {
    a[to] := a[pos];
  }

  /** Drops the markers from out and their entries from the map, moving the rest to the front. */
  method RemoveMarkers(out: array<int>, map': array<int>) returns (removeCnt: nat)
    requires out != map' && out.Length == map'.Length
    modifies out, map'
    ensures removeCnt == out.Length - |Kept(old(out[..]))|
    ensures out[..out.Length - removeCnt] == Selected(old(out[..]), Kept(old(out[..])))
    ensures map'[..out.Length - removeCnt] == Selected(old(map'[..]), Kept(old(out[..])))
  {
    ghost var u, m := out[..], map'[..];
    ghost var kept: seq<int> := [];
    removeCnt := 0;
    var pos := 0;
    while pos < out.Length
      invariant 0 <= pos <= out.Length
      invariant kept == Kept(u[..pos]) && removeCnt == pos - |kept|
      invariant Front(out, u, kept) && Front(map', m, kept)
      invariant forall i :: pos <= i < out.Length ==> out[i] == u[i]
      invariant forall i :: pos <= i < out.Length ==> map'[i] == m[i]
    {
      hide Kept, Front;
      KeptStep(u, pos);
      var c := out[pos];
      if c == LRM || c == RLM {
        removeCnt := removeCnt + 1;
      } else {
        Keep(out, u, kept, pos - removeCnt, pos);
        Keep(map', m, kept, pos - removeCnt, pos);
        kept := kept + [pos];
      }
      pos := pos + 1;
    }
    assert u[..pos] == u;
  }

  lemma KeptStep(u: seq<int>, p: nat)
    requires p < |u|
    ensures Kept(u[..p + 1]) == if IsMarker(u[p]) then Kept(u[..p]) else Kept(u[..p]) + [p]
  {
    assert u[..p + 1][..p] == u[..p];
  }

  /** Where each source position went, or -1 where it was removed. */
  ghost predicate InverseOf(back: seq<int>, there: seq<int>)
  {
    forall s :: 0 <= s < |back| ==>
      if back[s] < 0 then back[s] == -1 && s !in there
      else back[s] < |there| && there[back[s]] == s
  }

  method Invert(map': array<int>, count: nat, n: nat, stale: seq<int>) returns (back: array<int>)
    requires count <= n == map'.Length == |stale|
    requires forall i :: 0 <= i < count ==> 0 <= map'[i] < n
    requires Injective(map'[..count])
    ensures fresh(back) && back.Length == n
    ensures InverseOf(back[..], map'[..count])
  {
    ghost var there := map'[..count];
    back := new int[n](i requires 0 <= i < |stale| => stale[i]);
    if count < n {
      var s := 0;
      while s < n
        invariant 0 <= s <= n && map'[..count] == there
        invariant forall j :: 0 <= j < s ==> back[j] == -1
      {
        back[s] := -1;
        s := s + 1;
      }
    }
    var i := 0;
    while i < count
      invariant 0 <= i <= count && map'[..count] == there
      invariant forall j :: 0 <= j < i ==> back[there[j]] == j
      invariant count < n ==> forall s :: 0 <= s < n && s !in there[..i] ==> back[s] == -1
    {
      assert there[i] == map'[i];
      back[map'[i]] := i;
      assert there[..i + 1] == there[..i] + [there[i]];
      i := i + 1;
    }
    assert there[..count] == there;
    forall s | 0 <= s < n
      ensures if back[s] < 0 then back[s] == -1 && s !in there else back[s] < count && there[back[s]] == s
    {
      if s !in there && count == n {
        var x := Surjective(there, n, s);
        assert false;
      }
    }
  }
}
