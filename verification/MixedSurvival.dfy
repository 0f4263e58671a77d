/** Which texts survive the mixed codec and which bytes they become, told from the conversion tables. */
module MixedSurvival {

  import opened MixedCodec

  // ------------------------------------------------------------------ one unit

  /** Units for which the single byte is taken when there is one: Latin-1, the euro sign and, for CCSIDs 935 and
      1388, the overline. */
  predicate SingleFirst(t: Tables, u: nat)
  {
    u <= 0xFF || u == 0x20AC || (u == 0x203E && t.ccsid in {935, 1388})
  }

  /** The tables have a single byte for the unit: one that is not the substitute. */
  predicate HasSingle(t: Tables, u: nat) { t.sbFrom(u) != t.sub }

  /** The tables have a double-byte code for the unit. */
  predicate HasDouble(t: Tables, u: nat) { t.dbFrom(u) != 0xFEFE }

  predicate SingleReads(t: Tables, u: nat) { t.sbTo(t.sbFrom(u)) == u }

  predicate DoubleReads(t: Tables, u: nat) { DecodeCode(t, t.dbFrom(u)) == [u] }

  /** The code taken for the unit reads back: of the two it has, the single byte for units that prefer it and the
      double-byte code for the others. The substitution characters U+001A and U+FFFD stand for themselves. */
  predicate UnitKept(t: Tables, u: nat)
  {
    && !Surrogate(u)
    && (SingleFirst(t, u) && (HasSingle(t, u) || u == 0x1A) ==> SingleReads(t, u))
    && (SingleFirst(t, u) && !HasSingle(t, u) && u != 0x1A ==> HasDouble(t, u) && DoubleReads(t, u))
    && (!SingleFirst(t, u) && (HasDouble(t, u) || u == 0xFFFD) ==> DoubleReads(t, u))
    && (!SingleFirst(t, u) && !HasDouble(t, u) && u != 0xFFFD ==> HasSingle(t, u) && SingleReads(t, u))
  }

  /** The tables have a code for the unit, and every code they have for it reads back. */
  predicate EveryCodeReads(t: Tables, u: nat)
  {
    && !Surrogate(u) && (HasSingle(t, u) || HasDouble(t, u))
    && (HasSingle(t, u) ==> SingleReads(t, u))
    && (HasDouble(t, u) ==> DoubleReads(t, u))
  }

  /** No run of two or more units has a code of its own. */
  ghost predicate NoRuns(t: Tables, src: seq<nat>)
  {
    forall i: nat, n: nat :: n >= 2 && i + n <= |src| ==> !HasCode(t, src, i, n)
  }

  /** The code at a place: that of a run, which reads back, or that of the unit. */
  lemma CodeFound(t: Tables, src: seq<nat>, i: nat)
    requires Regular(t) && i < |src|
    ensures var c := CodeAt(t, src, i);
            || (c.units >= 2 && HasCode(t, src, i, c.units) && c.code != DoubleSub &&
                DecodeCode(t, c.code) == src[i..i + c.units])
            || (!Surrogate(src[i]) && c == Code(t.dbFrom(src[i]), 1))
            || (Surrogate(src[i]) && c.code == DoubleSub)
  {
    LongestMatchFacts(t, src, i, Min(t.maxMulti, |src| - i));
    var n := LongestMatch(t, src, i, Min(t.maxMulti, |src| - i));
    hide LongestMatch, DecodeCode;
    if n > 0 {
      assert RunOk(t, src[i..i + n]);
    }
  }

  lemma UnitStep(t: Tables, src: seq<nat>, i: nat)
    requires Regular(t) && i < |src|
    ensures UnitKept(t, src[i]) ==> KeptAt(t, src, i)
    ensures NoRuns(t, src) ==>
              && (KeptAt(t, src, i) <==> UnitKept(t, src[i]))
              && (!Surrogate(src[i]) ==> StepAt(t, src, i).units == 1)
  {
    CodeFound(t, src, i);
    hide CodeAt, DecodeCode, HasCode;
    assert src[i..i + 1] == [src[i]];
  }

  lemma {:induction false} AllKept(t: Tables, src: seq<nat>, i: nat)
    requires Regular(t) && i <= |src| && forall k :: i <= k < |src| ==> UnitKept(t, src[k])
    ensures Kept(t, src, i)
    decreases |src| - i
  {
    hide Regular, UnitKept, KeptAt, StepAt;
    if i < |src| {
      UnitStep(t, src, i);
      AllKept(t, src, i + StepAt(t, src, i).units);
    }
  }

  lemma {:induction false} KeptUnits(t: Tables, src: seq<nat>, i: nat)
    requires Regular(t) && i <= |src| && NoRuns(t, src) && Kept(t, src, i)
    ensures forall k :: i <= k < |src| ==> UnitKept(t, src[k])
    decreases |src| - i
  {
    hide Regular, KeptAt, StepAt, NoRuns;
    if i < |src| {
      UnitStep(t, src, i);
      KeptUnits(t, src, i + StepAt(t, src, i).units);
    }
  }

  /** Text whose units all survive survives, also where runs of them have codes of their own. */
  lemma UnitsSurvive(t: Tables, src: seq<nat>)
    requires Regular(t) && 0x0E !in src && forall k :: 0 <= k < |src| ==> UnitKept(t, src[k])
    ensures DecodeFrom(t, Encoded(t, src), true) == src
  {
    AllKept(t, src, 0);
    MixedRoundTrip(t, src);
  }

  /** In text without such runs a unit that does not survive is lost. */
  lemma UnitsSurviveIff(t: Tables, src: seq<nat>)
    requires Regular(t) && 0x0E !in src && NoRuns(t, src)
    ensures DecodeFrom(t, Encoded(t, src), true) == src <==> forall k :: 0 <= k < |src| ==> UnitKept(t, src[k])
  {
    MixedRoundTrip(t, src);
    if Kept(t, src, 0) {
      KeptUnits(t, src, 0);
    } else if forall k :: 0 <= k < |src| ==> UnitKept(t, src[k]) {
      AllKept(t, src, 0);
    }
  }

  /** Text of units whose codes all read back survives, whichever code is taken. */
  lemma CodesSurvive(t: Tables, src: seq<nat>)
    requires Regular(t) && 0x0E !in src && forall k :: 0 <= k < |src| ==> EveryCodeReads(t, src[k])
    ensures DecodeFrom(t, Encoded(t, src), true) == src
  {
    forall k | 0 <= k < |src| ensures UnitKept(t, src[k]) {
      CodesKept(t, src[k]);
    }
    UnitsSurvive(t, src);
  }

  lemma CodesKept(t: Tables, u: nat)
    requires Regular(t) && EveryCodeReads(t, u)
    ensures UnitKept(t, u)
  {
    hide DecodeCode;
  }

  // ------------------------------------------------------------------ the bytes

  /** The unit becomes its single byte. */
  predicate GoesSingle(t: Tables, u: nat)
  {
    !Surrogate(u) && HasSingle(t, u) && (SingleFirst(t, u) || !HasDouble(t, u)) && u != 0xFFFD
  }

  /** The unit becomes its double-byte code. */
  predicate GoesDouble(t: Tables, u: nat)
  {
    !Surrogate(u) && HasDouble(t, u) && (!SingleFirst(t, u) || !HasSingle(t, u)) && u != 0x1A
  }

  lemma UnitPiece(t: Tables, src: seq<nat>, i: nat)
    requires Regular(t) && i < |src| && NoRuns(t, src)
    ensures var u := src[i];
            && (GoesSingle(t, u) ==> StepAt(t, src, i) == Step(Single(t.sbFrom(u)), 1))
            && (GoesDouble(t, u) ==> StepAt(t, src, i) == Step(Double(t.dbFrom(u)), 1))
  {
    CodeFound(t, src, i);
    hide CodeAt, DecodeCode, HasCode;
  }

  /** Units that go single become one byte each, without shifts. */
  function SingleBytes(t: Tables, src: seq<nat>): (r: seq<nat>)
    ensures |r| == |src| && forall i :: 0 <= i < |src| ==> r[i] == t.sbFrom(src[i])
  {
    seq(|src|, i requires 0 <= i < |src| => t.sbFrom(src[i]))
  }

  /** The codes of units that go double, high byte first. */
  function DoubleBytes(t: Tables, src: seq<nat>): seq<nat>
  {
    if src == [] then [] else [t.dbFrom(src[0]) / 256, t.dbFrom(src[0]) % 256] + DoubleBytes(t, src[1..])
  }

  lemma {:induction false} SinglesFrom(t: Tables, src: seq<nat>, i: nat)
    requires Regular(t) && NoRuns(t, src) && i <= |src| && forall k :: i <= k < |src| ==> GoesSingle(t, src[k])
    ensures Emit(t, PiecesFrom(t, src, i), true) == SingleBytes(t, src[i..])
    decreases |src| - i
  {
    if i < |src| {
      UnitPiece(t, src, i);
      hide Regular, NoRuns, GoesSingle, StepAt;
      SinglesFrom(t, src, i + 1);
      var rest := PiecesFrom(t, src, i + 1);
      var b := t.sbFrom(src[i]);
      assert ([Single(b)] + rest)[1..] == rest;
      assert Put(t, Single(b), true) == [b];
      assert SingleBytes(t, src[i..]) == [b] + SingleBytes(t, src[i + 1..]);
    }
  }

  lemma {:induction false} DoublesFrom(t: Tables, src: seq<nat>, i: nat)
    requires Regular(t) && NoRuns(t, src) && i <= |src| && forall k :: i <= k < |src| ==> GoesDouble(t, src[k])
    ensures Emit(t, PiecesFrom(t, src, i), false) == DoubleBytes(t, src[i..]) + [0x0F]
    decreases |src| - i
  {
    if i < |src| {
      UnitPiece(t, src, i);
      hide Regular, NoRuns, GoesDouble, StepAt;
      DoublesFrom(t, src, i + 1);
      var rest := PiecesFrom(t, src, i + 1);
      var c := t.dbFrom(src[i]);
      assert ([Double(c)] + rest)[1..] == rest;
      assert src[i..][1..] == src[i + 1..];
      assert Put(t, Double(c), false) == [c / 256, c % 256];
    }
  }

  /** A stretch of single-byte units is encoded byte by byte. */
  lemma SingleStretch(t: Tables, src: seq<nat>)
    requires Regular(t) && NoRuns(t, src) && forall k :: 0 <= k < |src| ==> GoesSingle(t, src[k])
    ensures Encoded(t, src) == SingleBytes(t, src)
  {
    SinglesFrom(t, src, 0);
    assert src[0..] == src;
  }

  /** A stretch of double-byte units is encoded between one shift-out and one shift-in. */
  lemma DoubleStretch(t: Tables, src: seq<nat>)
    requires Regular(t) && NoRuns(t, src) && src != [] && forall k :: 0 <= k < |src| ==> GoesDouble(t, src[k])
    ensures Encoded(t, src) == [0x0E] + DoubleBytes(t, src) + [0x0F]
  {
    hide Regular, NoRuns, GoesDouble, StepAt, Emit;
    DoublesFrom(t, src, 0);
    UnitPiece(t, src, 0);
    assert src[0..] == src;
    ShiftsOut(t, PiecesFrom(t, src, 0));
  }

  lemma ShiftsOut(t: Tables, pieces: seq<Piece>)
    requires pieces != [] && pieces[0].Double?
    ensures Emit(t, pieces, true) == [0x0E] + Emit(t, pieces, false)
  {}

  /** A unit without a code becomes the single-byte substitution character, and so does a pair of surrogates. */
  lemma Substituted(t: Tables, src: seq<nat>)
    requires Regular(t) && NoRuns(t, src)
    requires || (|src| == 1 && !HasSingle(t, src[0]) && src[0] != 0x1A && (Surrogate(src[0]) || !HasDouble(t, src[0])) &&
                 src[0] != 0xFFFD)
             || (|src| == 2 && 0xD800 <= src[0] < 0xDC00)
    ensures Encoded(t, src) == [t.sub]
  {
    CodeFound(t, src, 0);
    CodeUnits(t, src);
    hide CodeAt, DecodeCode, HasCode;
    var s := StepAt(t, src, 0);
    assert s.units == |src| && (s.piece == Sub || s.piece == Single(t.sub));
    hide StepAt;
    assert PiecesFrom(t, src, |src|) == [];
    assert PiecesFrom(t, src, 0) == [s.piece];
    OnePiece(t, s.piece);
  }

  lemma OnePiece(t: Tables, p: Piece)
    requires p == Sub || p == Single(t.sub)
    ensures Emit(t, [p], true) == [t.sub]
  {
    assert [p][1..] == [];
    assert Emit(t, [], true) == [];
  }

  lemma CodeUnits(t: Tables, src: seq<nat>)
    requires NoRuns(t, src) && src != []
    ensures CodeAt(t, src, 0).units == if 0xD800 <= src[0] < 0xDC00 && |src| > 1 then 2 else 1
  {
    LongestMatchFacts(t, src, 0, Min(t.maxMulti, |src|));
    hide LongestMatch;
  }
}
