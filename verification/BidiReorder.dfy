/** Reversing runs level by level (rule L2 of UAX #9, section 3.4) and the display order it produces. */
module BidiReorder {

  predicate InRange(q: seq<int>, n: nat) { |q| == n && forall x :: 0 <= x < n ==> 0 <= q[x] < n }

  predicate Injective(q: seq<int>) { forall x, y :: 0 <= x < y < |q| ==> q[x] != q[y] }

  predicate IsPermutation(q: seq<int>, n: nat) { InRange(q, n) && Injective(q) }

  /** The elements of a in the order q lists their positions. */
  function Permuted(a: seq<int>, q: seq<int>): (r: seq<int>)
    requires InRange(q, |a|)
    ensures |r| == |a|
    ensures forall x :: 0 <= x < |a| ==> r[x] == a[q[x]]
  {
    seq(|a|, x requires 0 <= x < |a| => a[q[x]])
  }

  function Range(n: nat): (r: set<int>)
    ensures |r| == n
    ensures forall v :: v in r <==> 0 <= v < n
  {
    if n == 0 then {} else Range(n - 1) + {n - 1}
  }

  function Image(q: seq<int>, k: nat): (r: set<int>)
    requires k <= |q| && Injective(q)
    ensures |r| == k
    ensures forall v :: v in r <==> exists x :: 0 <= x < k && q[x] == v
  {
    if k == 0 then {} else Image(q, k - 1) + {q[k - 1]}
  }

  lemma SubsetSize(a: set<int>, b: set<int>)
    requires a <= b
    ensures |a| <= |b|
  {
    assert b == a + (b - a);
  }

  /** A permutation hits every position. */
  lemma Surjective(q: seq<int>, n: nat, s: int) returns (x: int)
    requires IsPermutation(q, n) && 0 <= s < n
    ensures 0 <= x < n && q[x] == s
  {
    if s !in Image(q, n) {
      SubsetSize(Image(q, n), Range(n) - {s});
      assert false;
    }
    x :| 0 <= x < n && q[x] == s;
  }

  // ------------------------------------------------------------------ runs

  /** First position of the stretch of levels >= k that holds x. */
  function RunStart(levels: seq<int>, k: int, x: nat): (s: nat)
    requires x < |levels|
    ensures s <= x
    ensures levels[x] >= k ==> forall i :: s <= i <= x ==> levels[i] >= k
    ensures levels[x] >= k ==> s == 0 || levels[s - 1] < k
  {
    if x == 0 || levels[x - 1] < k then x else RunStart(levels, k, x - 1)
  }

  /** Last position of that stretch. */
  function RunEnd(levels: seq<int>, k: int, x: nat): (e: nat)
    requires x < |levels|
    ensures x <= e < |levels|
    ensures levels[x] >= k ==> forall i :: x <= i <= e ==> levels[i] >= k
    ensures levels[x] >= k ==> e == |levels| - 1 || levels[e + 1] < k
    decreases |levels| - x
  {
    if x == |levels| - 1 || levels[x + 1] < k then x else RunEnd(levels, k, x + 1)
  }

  /** Where position x goes when every stretch of levels >= k is reversed. */
  function Mirrored(levels: seq<int>, k: int, x: nat): (y: nat)
    requires x < |levels|
    ensures y < |levels|
  {
    if levels[x] < k then x else RunStart(levels, k, x) + RunEnd(levels, k, x) - x
  }

  /** Reversals for the levels hi down to lo, as a map from display position to source position. */
  function Displayed(levels: seq<int>, lo: int, hi: int, x: nat): (y: nat)
    requires x < |levels|
    ensures y < |levels|
    decreases hi - lo + 1
  {
    if lo > hi then x else Displayed(levels, lo + 1, hi, Mirrored(levels, lo, x))
  }

  function DisplayMap(levels: seq<int>, lo: int, hi: int): (q: seq<int>)
    ensures |q| == |levels|
  {
    seq(|levels|, x requires 0 <= x < |levels| => Displayed(levels, lo, hi, x))
  }

  function Min(a: int, b: int): int { if a <= b then a else b }
  function Max(a: int, b: int): int { if a <= b then b else a }

  /** All levels between a and b, in either order, are at least k. */
  predicate Linked(levels: seq<int>, k: int, a: nat, b: nat)
    requires a < |levels| && b < |levels|
  {
    forall i :: Min(a, b) <= i <= Max(a, b) ==> levels[i] >= k
  }

  lemma SameRun(levels: seq<int>, k: int, a: nat, b: nat)
    requires a < |levels| && b < |levels| && Linked(levels, k, a, b)
    ensures RunStart(levels, k, a) == RunStart(levels, k, b)
    ensures RunEnd(levels, k, a) == RunEnd(levels, k, b)
  {
    var s, s' := RunStart(levels, k, a), RunStart(levels, k, b);
    var e, e' := RunEnd(levels, k, a), RunEnd(levels, k, b);
    assert s > 0 ==> levels[s - 1] < k;
    assert s' > 0 ==> levels[s' - 1] < k;
    assert e < |levels| - 1 ==> levels[e + 1] < k;
    assert e' < |levels| - 1 ==> levels[e' + 1] < k;
  }

  lemma MirroredStays(levels: seq<int>, k: int, x: nat)
    requires x < |levels|
    ensures levels[x] >= k ==> Linked(levels, k, x, Mirrored(levels, k, x))
    ensures levels[x] < k ==> Mirrored(levels, k, x) == x
  {}

  /** Later (higher) reversals move a position only inside its stretch. */
  lemma {:induction false} DisplayedStays(levels: seq<int>, lo: int, hi: int, x: nat)
    requires x < |levels|
    ensures levels[x] >= lo ==> Linked(levels, lo, x, Displayed(levels, lo, hi, x))
    ensures levels[x] < lo ==> Displayed(levels, lo, hi, x) == x
    decreases hi - lo + 1
  {
    if lo <= hi {
      var y := Mirrored(levels, lo, x);
      MirroredStays(levels, lo, x);
      DisplayedStays(levels, lo + 1, hi, y);
    }
  }

  /** Reversal flips the order inside a stretch and keeps it between stretches. */
  lemma MirroredOrder(levels: seq<int>, k: int, x: nat, y: nat)
    requires x < y < |levels|
    ensures Linked(levels, k, x, y) ==> Mirrored(levels, k, y) < Mirrored(levels, k, x)
    ensures !Linked(levels, k, x, y) ==> Mirrored(levels, k, x) < Mirrored(levels, k, y)
  {
    if Linked(levels, k, x, y) {
      SameRun(levels, k, x, y);
    } else {
      var i :| x <= i <= y && levels[i] < k;
    }
  }

  // ------------------------------------------------------------------ display order

  function LeastFrom(levels: seq<int>, a: nat, b: nat): int
    requires a <= b < |levels|
    decreases b - a
  {
    if a == b then levels[a] else Min(levels[a], LeastFrom(levels, a + 1, b))
  }

  /** The smallest level between a and b, in either order. */
  function MinLevel(levels: seq<int>, a: nat, b: nat): int
    requires a < |levels| && b < |levels|
  {
    LeastFrom(levels, Min(a, b), Max(a, b))
  }

  lemma {:induction false} LeastIsBound(levels: seq<int>, k: int, a: nat, b: nat)
    requires a <= b < |levels|
    ensures LeastFrom(levels, a, b) >= k <==> forall i :: a <= i <= b ==> levels[i] >= k
    decreases b - a
  {
    if a < b {
      LeastIsBound(levels, k, a + 1, b);
    }
  }

  lemma LinkedByMin(levels: seq<int>, k: int, a: nat, b: nat)
    requires a < |levels| && b < |levels|
    ensures Linked(levels, k, a, b) <==> MinLevel(levels, a, b) >= k
  {
    LeastIsBound(levels, k, Min(a, b), Max(a, b));
  }

  lemma LinkedTransitive(levels: seq<int>, k: int, a: nat, b: nat, c: nat)
    requires a < |levels| && b < |levels| && c < |levels|
    requires Linked(levels, k, a, b) && Linked(levels, k, b, c)
    ensures Linked(levels, k, a, c)
  {
    forall i | Min(a, c) <= i <= Max(a, c) ensures levels[i] >= k {
      assert Min(a, b) <= i <= Max(a, b) || Min(b, c) <= i <= Max(b, c);
    }
  }

  /** How many of the reversals lo..hi contain both ends of a stretch whose smallest level is m. */
  function Flips(m: int, lo: int): int { if m < lo then 0 else m - lo + 1 }

  /** Two displayed positions are linked exactly when the positions they are displayed at are. */
  lemma LinkedDisplayed(levels: seq<int>, lo: int, hi: int, x: nat, y: nat)
    requires x < |levels| && y < |levels|
    ensures Linked(levels, lo, x, y) <==>
            Linked(levels, lo, Displayed(levels, lo, hi, x), Displayed(levels, lo, hi, y))
  {
    var a, b := Displayed(levels, lo, hi, x), Displayed(levels, lo, hi, y);
    DisplayedStays(levels, lo, hi, x);
    DisplayedStays(levels, lo, hi, y);
    if Linked(levels, lo, x, y) {
      LinkedTransitive(levels, lo, a, x, y);
      LinkedTransitive(levels, lo, a, y, b);
    }
    if Linked(levels, lo, a, b) {
      LinkedBack(levels, lo, x, a, y, b);
    }
  }

  lemma FlipStep(m: int, lo: int)
    ensures m >= lo ==> (Flips(m, lo) % 2 == 0 <==> Flips(m, lo + 1) % 2 != 0)
    ensures m < lo ==> Flips(m, lo) == Flips(m, lo + 1) == 0
  {}

  /** The order of two displayed characters a and b is turned once for every reversal that holds both. */
  lemma {:induction false} FlipCount(levels: seq<int>, lo: int, hi: int, x: nat, y: nat, a: nat, b: nat, m: int)
    requires x < y < |levels|
    requires forall i :: 0 <= i < |levels| ==> levels[i] <= hi
    requires a == Displayed(levels, lo, hi, x) && b == Displayed(levels, lo, hi, y) && m == MinLevel(levels, a, b)
    ensures a != b
    ensures a < b <==> Flips(m, lo) % 2 == 0
    decreases hi - lo + 1
  {
    LinkedByMin(levels, lo, a, b);
    if lo <= hi {
      MirroredOrder(levels, lo, x, y);
      LinkedDisplayed(levels, lo, hi, x, y);
      FlipStep(m, lo);
      var x', y' := Mirrored(levels, lo, x), Mirrored(levels, lo, y);
      if Linked(levels, lo, x, y) {
        FlipCount(levels, lo + 1, hi, y', x', b, a, m);
      } else {
        FlipCount(levels, lo + 1, hi, x', y', a, b, m);
      }
    } else {
      assert levels[a] < lo;
    }
  }

  lemma LinkedBack(levels: seq<int>, k: int, x: nat, a: nat, y: nat, b: nat)
    requires x < |levels| && y < |levels| && a < |levels| && b < |levels|
    requires Linked(levels, k, a, b)
    requires levels[x] >= k ==> Linked(levels, k, x, a)
    requires levels[x] < k ==> a == x
    requires levels[y] >= k ==> Linked(levels, k, y, b)
    requires levels[y] < k ==> b == y
    ensures Linked(levels, k, x, y)
  {
    LinkedTransitive(levels, k, x, a, b);
    LinkedTransitive(levels, k, y, b, x);
  }

  /** The order rule L2 fixes: of two characters, the earlier one is shown first exactly when the smallest
      level between them has the given parity (even for a left-to-right line, odd for a right-to-left
      one). */
  predicate ShownByLevels(q: seq<int>, levels: seq<int>, parity: int)
    requires InRange(q, |levels|)
  {
    forall x, y :: 0 <= x < y < |levels| ==> (q[x] < q[y] <==> MinLevel(levels, q[x], q[y]) % 2 == parity)
  }

  /** Reversing from the highest level down to lo shows the text by levels: lo is the lowest level of the
      text, raised by one if its parity is the one that is kept. */
  lemma ReversalsShowByLevels(levels: seq<int>, lo: int, hi: int, parity: int)
    requires parity == 0 || parity == 1
    requires forall i :: 0 <= i < |levels| ==> lo - 1 <= levels[i] <= hi
    requires lo % 2 != parity
    ensures IsPermutation(DisplayMap(levels, lo, hi), |levels|)
    ensures ShownByLevels(DisplayMap(levels, lo, hi), levels, parity)
  {
    hide Displayed, MinLevel;
    var q := DisplayMap(levels, lo, hi);
    forall x, y | 0 <= x < y < |levels|
      ensures q[x] != q[y] && (q[x] < q[y] <==> MinLevel(levels, q[x], q[y]) % 2 == parity)
    {
      FlipCount(levels, lo, hi, x, y, q[x], q[y], MinLevel(levels, q[x], q[y]));
      LinkedByMin(levels, lo - 1, q[x], q[y]);
    }
  }

  /** Only one permutation shows the text by levels. */
  lemma {:induction false} ShownByLevelsUnique(p: seq<int>, q: seq<int>, levels: seq<int>, parity: int, k: nat)
    requires IsPermutation(p, |levels|) && IsPermutation(q, |levels|)
    requires ShownByLevels(p, levels, parity) && ShownByLevels(q, levels, parity)
    requires k <= |levels|
    ensures p[..k] == q[..k]
  {
    if k > 0 {
      var x := k - 1;
      ShownByLevelsUnique(p, q, levels, parity, x);
      if p[x] != q[x] {
        var z := Surjective(p, |levels|, q[x]);
        var y := Surjective(q, |levels|, p[x]);
        assert forall i :: 0 <= i < x ==> p[i] == p[..x][i] == q[..x][i] == q[i];
        assert false;
      }
    }
  }
}
