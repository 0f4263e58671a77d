/** What text between delimiters is: delimited text keeps its classes, everything else separates blocks. */
module BidiDelimiters {
  import opened BidiTables
  import opened BidiTypes

  /** Text with every closing delimiter doubled, as it stands between delimiters. */
  function Doubled(w: seq<int>, d2: int): seq<int>
  {
    if w == [] then [] else (if w[0] == d2 then [d2, d2] else [w[0]]) + Doubled(w[1..], d2)
  }

  lemma {:induction false} Outside(c: seq<int>, i: nat, d1: int, d2: int)
    requires i <= |c| && forall m :: 0 <= m < i ==> c[m] != d1
    ensures DelimState(c, i, d1, d2) == 0
  {
    if i > 0 {
      Outside(c, i - 1, d1, d2);
    }
  }

  /** From an undelimited position on, the text is read as if it began there. */
  lemma {:induction false} AfreshState(c: seq<int>, n: nat, j: nat, d1: int, d2: int)
    requires n + j <= |c| && DelimState(c, n, d1, d2) == 0
    ensures DelimState(c, n + j, d1, d2) == DelimState(c[n..], j, d1, d2)
  {
    if j > 0 {
      AfreshState(c, n, j - 1, d1, d2);
    }
  }

  lemma Afresh(c: seq<int>, k: seq<int>, n: nat, d1: int, d2: int)
    requires n <= |c| == |k| && DelimState(c, n, d1, d2) == 0
    ensures EffectiveClasses(c, k, d1, d2)[n..] == EffectiveClasses(c[n..], k[n..], d1, d2)
  {
    forall j | 0 <= j < |c| - n
      ensures EffectiveClass(c, k, n + j, d1, d2) == EffectiveClass(c[n..], k[n..], j, d1, d2)
    {
      AfreshState(c, n, j, d1, d2);
    }
  }

  /** Between delimiters every character keeps its class, and the doubled ones do not close. */
  lemma {:induction false} Inside(c: seq<int>, k: seq<int>, at: nat, w: seq<int>, d1: int, d2: int)
    requires |c| == |k| && d1 != NO_DELIM
    requires at + |Doubled(w, d2)| <= |c| && c[at..at + |Doubled(w, d2)|] == Doubled(w, d2)
    requires DelimState(c, at, d1, d2) == 1
    ensures DelimState(c, at + |Doubled(w, d2)|, d1, d2) == 1
    ensures forall i :: at <= i < at + |Doubled(w, d2)| ==> EffectiveClass(c, k, i, d1, d2) == k[i]
    decreases |w|
  {
    if w != [] {
      var n := if w[0] == d2 then 2 else 1;
      var rest := Doubled(w[1..], d2);
      assert c[at] == c[at..at + |Doubled(w, d2)|][0] == w[0];
      if n == 2 {
        assert c[at + 1] == c[at..at + |Doubled(w, d2)|][1] == d2;
        assert DelimState(c, at + 1, d1, d2) == 2;
      }
      assert DelimState(c, at + n, d1, d2) == 1;
      assert c[at + n..at + n + |rest|] == c[at..at + |Doubled(w, d2)|][n..] == rest;
      Inside(c, k, at + n, w[1..], d1, d2);
    }
  }

  /** A delimited stretch: the text before it and its delimiters separate blocks, w keeps its classes, and what
      follows is read afresh. */
  lemma DelimitedStretch(x: seq<int>, w: seq<int>, z: seq<int>, k: seq<int>, d1: int, d2: int)
    requires d1 != NO_DELIM && d1 !in x && (z != [] ==> z[0] != d2)
    requires |k| == |x + [d1] + Doubled(w, d2) + [d2] + z|
    ensures var c := x + [d1] + Doubled(w, d2) + [d2] + z;
            var e := EffectiveClasses(c, k, d1, d2);
            var (from, to) := (|x| + 1, |x| + 1 + |Doubled(w, d2)|);
            && (forall i :: 0 <= i < from ==> e[i] == B)
            && e[from..to] == k[from..to]
            && e[to] == B
            && e[to + 1..] == EffectiveClasses(z, k[to + 1..], d1, d2)
  {
    var c := x + [d1] + Doubled(w, d2) + [d2] + z;
    var from, to := |x| + 1, |x| + 1 + |Doubled(w, d2)|;
    Opened(c, |x|, d1, d2);
    assert c[from..to] == Doubled(w, d2);
    Inside(c, k, from, w, d1, d2);
    assert c[to] == d2 && (z != [] ==> c[to + 1] == z[0]);
    assert DelimState(c, to + 1, d1, d2) == 0;
    Afresh(c, k, to + 1, d1, d2);
    assert c[to + 1..] == z;
    hide DelimState;
  }

  lemma Opened(c: seq<int>, n: nat, d1: int, d2: int)
    requires n < |c| && c[n] == d1 && forall m :: 0 <= m < n ==> c[m] != d1
    ensures DelimState(c, n + 1, d1, d2) == 1
    ensures forall i :: 0 <= i <= n ==> DelimState(c, i, d1, d2) == 0
  {
    forall i | 0 <= i <= n ensures DelimState(c, i, d1, d2) == 0 {
      Outside(c, i, d1, d2);
    }
  }

  /** Text without an opening delimiter only separates blocks, and an unclosed stretch runs to the end. */
  lemma UnclosedStretch(x: seq<int>, w: seq<int>, k: seq<int>, d1: int, d2: int)
    requires d1 != NO_DELIM && d1 !in x && |k| == |x + [d1] + Doubled(w, d2)|
    ensures forall i :: 0 <= i < |x| ==> EffectiveClasses(x, k[..|x|], d1, d2)[i] == B
    ensures var e := EffectiveClasses(x + [d1] + Doubled(w, d2), k, d1, d2);
            && (forall i :: 0 <= i < |x| + 1 ==> e[i] == B)
            && e[|x| + 1..] == k[|x| + 1..]
  {
    var c := x + [d1] + Doubled(w, d2);
    Opened(c, |x|, d1, d2);
    assert c[|x| + 1..|c|] == Doubled(w, d2);
    Inside(c, k, |x| + 1, w, d1, d2);
    forall i | 0 <= i < |x| ensures EffectiveClass(x, k[..|x|], i, d1, d2) == B {
      Outside(x, i, d1, d2);
    }
  }
}
