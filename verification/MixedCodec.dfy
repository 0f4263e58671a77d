/** The EBCDIC mixed codec: single bytes and two-byte codes, switched by shift-out and shift-in. Text is a sequence
    of UTF-16 units. The conversion tables are parameters. */
module MixedCodec {

  import opened Wrappers

  const ShiftOut: nat := 0x0E
  const ShiftIn: nat := 0x0F
  const SingleSubUnit: nat := 0x1A
  const DoubleSubUnit: nat := 0xFFFD
  const DoubleSub: nat := 0xFEFE

  datatype Tables = Tables(ccsid: nat, sub: nat, sbTo: nat -> nat, sbFrom: nat -> nat, dbTo: nat -> nat,
                           dbFrom: nat -> nat, toMulti: map<nat, seq<nat>>, fromMulti: map<seq<nat>, nat>,
                           maxMulti: nat)

  predicate Surrogate(u: nat) { 0xD800 <= u <= 0xDFFF }

  // ------------------------------------------------------------------ one double-byte code

  datatype Code = Code(code: nat, units: nat)

  function DecodeCode(t: Tables, code: nat): seq<nat>
  {
    if code in t.toMulti then t.toMulti[code] else [t.dbTo(code)]
  }

  /** The longest run of at least two and at most l units from i on that has a code. */
  function LongestMatch(t: Tables, src: seq<nat>, i: nat, l: nat): nat
    requires i + l <= |src|
  {
    if l < 2 then 0 else if HasCode(t, src, i, l) then l else LongestMatch(t, src, i, l - 1)
  }

  predicate HasCode(t: Tables, src: seq<nat>, i: nat, n: nat)
    requires i + n <= |src|
  {
    src[i..i + n] in t.fromMulti
  }

  lemma {:induction false} LongestMatchFacts(t: Tables, src: seq<nat>, i: nat, l: nat)
    requires i + l <= |src|
    ensures var n := LongestMatch(t, src, i, l);
            && n <= l && (n == 0 || (n >= 2 && HasCode(t, src, i, n)))
            && forall k :: n < k <= l && k >= 2 ==> !HasCode(t, src, i, k)
  {
    if l >= 2 && !HasCode(t, src, i, l) {
      LongestMatchFacts(t, src, i, l - 1);
    }
  }

  function Min(a: nat, b: nat): nat { if a < b then a else b }

  function CodeAt(t: Tables, src: seq<nat>, i: nat): (r: Code)
    requires i < |src|
    ensures 1 <= r.units && i + r.units <= |src|
  {
    var n := LongestMatch(t, src, i, Min(t.maxMulti, |src| - i));
    LongestMatchFacts(t, src, i, Min(t.maxMulti, |src| - i));
    var u := src[i];
    if n > 0 then Code(t.fromMulti[src[i..i + n]], n)
    else if Surrogate(u) then Code(DoubleSub, if u < 0xDC00 && i + 1 < |src| then 2 else 1)
    else Code(t.dbFrom(u), 1)
  }

  method EncodeAt(t: Tables, src: seq<nat>, i: nat) returns (r: Code)
    requires i < |src|
    ensures r == CodeAt(t, src, i)
  {
    var l := Min(t.maxMulti, |src| - i);
    while l >= 2
      invariant i + l <= |src|
      invariant LongestMatch(t, src, i, l) == LongestMatch(t, src, i, Min(t.maxMulti, |src| - i))
    {
      if HasCode(t, src, i, l) {
        return Code(t.fromMulti[src[i..i + l]], l);
      }
      l := l - 1;
    }
    var u := src[i];
    if Surrogate(u) {
      if u < 0xDC00 && i + 1 < |src| {
        return Code(DoubleSub, 2);
      }
      return Code(DoubleSub, 1);
    }
    return Code(t.dbFrom(u), 1);
  }

  // ------------------------------------------------------------------ encoding

  /** What one step of the encoder puts out; Sub is the substitution character of the current mode. */
  datatype Piece = Single(b: nat) | Double(code: nat) | Sub

  datatype Step = Step(piece: Piece, units: nat)

  predicate PrefersSingle(t: Tables, u: nat)
  {
    u < 256 || u == 0x20AC || (u == 0x203E && (t.ccsid == 935 || t.ccsid == 1388))
  }

  function StepAt(t: Tables, src: seq<nat>, i: nat): (r: Step)
    requires i < |src|
    ensures 1 <= r.units && i + r.units <= |src|
  {
    var u := src[i];
    var b := t.sbFrom(u);
    var c := CodeAt(t, src, i);
    if PrefersSingle(t, u) then
      if b != t.sub || u == SingleSubUnit then Step(Single(b), 1)
      else Step(if c.code == DoubleSub then Single(t.sub) else Double(c.code), c.units)
    else if c.code != DoubleSub || u == DoubleSubUnit then Step(Double(c.code), c.units)
    else Step(if b != t.sub then Single(b) else Sub, c.units)
  }

  function PiecesFrom(t: Tables, src: seq<nat>, i: nat): seq<Piece>
    requires i <= |src|
    decreases |src| - i
  {
    if i == |src| then []
    else
      var s := StepAt(t, src, i);
      [s.piece] + PiecesFrom(t, src, i + s.units)
  }

  function SingleAfter(p: Piece, single: bool): bool { if p.Sub? then single else p.Single? }

  function Codes(t: Tables, p: Piece, single: bool): seq<nat>
  {
    match p
    case Single(b) => [b]
    case Double(c) => [c / 256, c % 256]
    case Sub => if single then [t.sub] else [DoubleSub / 256, DoubleSub % 256]
  }

  function Shift(from: bool, to: bool): seq<nat>
  {
    if from == to then [] else if to then [ShiftIn] else [ShiftOut]
  }

  function Put(t: Tables, p: Piece, single: bool): seq<nat>
  {
    Shift(single, SingleAfter(p, single)) + Codes(t, p, single)
  }

  /** The bytes of some pieces, back in single-byte mode at the end. */
  function Emit(t: Tables, pieces: seq<Piece>, single: bool): seq<nat>
  {
    if pieces == [] then Shift(single, true)
    else Put(t, pieces[0], single) + Emit(t, pieces[1..], SingleAfter(pieces[0], single))
  }

  lemma EmitFrom(t: Tables, src: seq<nat>, i: nat, out: seq<nat>, single: bool)
    requires i < |src|
    ensures var s := StepAt(t, src, i);
            out + Emit(t, PiecesFrom(t, src, i), single) ==
            (out + Put(t, s.piece, single)) + Emit(t, PiecesFrom(t, src, i + s.units), SingleAfter(s.piece, single))
  {
    hide StepAt, Put;
    var s := StepAt(t, src, i);
    var rest := PiecesFrom(t, src, i + s.units);
    assert PiecesFrom(t, src, i) == [s.piece] + rest;
    assert ([s.piece] + rest)[1..] == rest;
  }

  lemma EmitNone(t: Tables, single: bool)
    ensures Emit(t, [], single) == Shift(single, true)
  {}

  lemma NoPieces(t: Tables, src: seq<nat>)
    ensures PiecesFrom(t, src, |src|) == []
  {}

  class Encoder {
    const t: Tables
    var out: seq<nat>
    var single: bool

    constructor (t: Tables)
      ensures this.t == t && out == [] && single
    {
      this.t, out, single := t, [], true;
    }

    method PutSingle(b: nat)
      modifies this
      ensures out == old(out) + Put(t, Single(b), old(single)) && single
    {
      if !single {
        single := true;
        out := out + [ShiftIn];
      }
      out := out + [b];
    }

    method PutDouble(code: nat)
      modifies this
      ensures out == old(out) + Put(t, Double(code), old(single)) && !single
    {
      if single {
        single := false;
        out := out + [ShiftOut];
      }
      out := out + [code / 256, code % 256];
    }

    method EncodeStep(src: seq<nat>, i: nat) returns (n: nat)
      requires i < |src|
      modifies this
      ensures var s := StepAt(t, src, i);
              n == s.units && out == old(out) + Put(t, s.piece, old(single)) && single == SingleAfter(s.piece, old(single))
    {
      hide Put, CodeAt;
      var cur := src[i];
      if PrefersSingle(t, cur) {
        var b := t.sbFrom(cur);
        if b != t.sub || cur == SingleSubUnit {
          PutSingle(b);
          return 1;
        }
        var c := EncodeAt(t, src, i);
        if c.code == DoubleSub {
          PutSingle(t.sub);
        } else {
          PutDouble(c.code);
        }
        return c.units;
      }
      var c := EncodeAt(t, src, i);
      n := c.units;
      if c.code != DoubleSub || cur == DoubleSubUnit {
        PutDouble(c.code);
      } else {
        var b := t.sbFrom(cur);
        if b != t.sub {
          PutSingle(b);
        } else {
          PutSub();
        }
      }
    }

    method PutSub()
      modifies this`out
      ensures out == old(out) + Put(t, Sub, single)
    {
      if single {
        out := out + [t.sub];
      } else {
        out := out + [DoubleSub / 256, DoubleSub % 256];
      }
    }

    method Encode(src: seq<nat>)
      requires out == [] && single
      modifies this
      ensures out == Emit(t, PiecesFrom(t, src, 0), true)
    {
      hide StepAt, Put, Emit, PiecesFrom;
      var i := 0;
      while i < |src|
        invariant 0 <= i <= |src|
        invariant out + Emit(t, PiecesFrom(t, src, i), single) == Emit(t, PiecesFrom(t, src, 0), true)
      {
        EmitFrom(t, src, i, out, single);
        var n := EncodeStep(src, i);
        i := i + n;
      }
      NoPieces(t, src);
      EmitNone(t, single);
      if !single {
        out := out + [ShiftIn];
      }
    }
  }

  // ------------------------------------------------------------------ decoding

  function DecodeFrom(t: Tables, data: seq<nat>, single: bool): seq<nat>
  {
    if data == [] then []
    else if single then
      if data[0] == ShiftOut then DecodeFrom(t, data[1..], false)
      else [t.sbTo(data[0])] + DecodeFrom(t, data[1..], true)
    else if data[0] == ShiftIn then DecodeFrom(t, data[1..], true)
    else if |data| == 1 then [DoubleSubUnit]
    else DecodeCode(t, data[0] * 256 + data[1]) + DecodeFrom(t, data[2..], false)
  }

  method Decode(t: Tables, data: seq<nat>) returns (units: seq<nat>)
    ensures units == DecodeFrom(t, data, true)
  {
    hide DecodeFrom, DecodeCode;
    units := [];
    var single := true;
    var i := 0;
    assert data[0..] == data;
    NothingToDecode(t, data);
    while i < |data|
      invariant 0 <= i <= |data|
      invariant units + DecodeFrom(t, data[i..], single) == DecodeFrom(t, data, true)
    {
      var b := data[i];
      DecodeNext(t, data, i, single, units);
      if single {
        if b == ShiftOut {
          single := false;
        } else {
          units := units + [t.sbTo(b)];
        }
      } else if b == ShiftIn {
        single := true;
      } else if i + 1 >= |data| {
        units := units + [DoubleSubUnit];
        return;
      } else {
        units := units + DecodeCode(t, b * 256 + data[i + 1]);
        i := i + 1;
      }
      i := i + 1;
    }
  }

  lemma NothingToDecode(t: Tables, data: seq<nat>)
    ensures forall single :: DecodeFrom(t, data[|data|..], single) == []
  {}

  lemma DecodeNext(t: Tables, data: seq<nat>, i: nat, single: bool, units: seq<nat>)
    requires i < |data|
    ensures var b := data[i];
            units + DecodeFrom(t, data[i..], single) ==
              if single then
                if b == ShiftOut then units + DecodeFrom(t, data[i + 1..], false)
                else (units + [t.sbTo(b)]) + DecodeFrom(t, data[i + 1..], true)
              else if b == ShiftIn then units + DecodeFrom(t, data[i + 1..], true)
              else if i + 1 >= |data| then units + [DoubleSubUnit]
              else (units + DecodeCode(t, b * 256 + data[i + 1])) + DecodeFrom(t, data[i + 2..], false)
  {
    assert data[i..][1..] == data[i + 1..];
    if i + 1 < |data| {
      assert data[i..][2..] == data[i + 2..];
    }
  }

  // ------------------------------------------------------------------ decoding what was encoded

  /** No single byte is a shift-out, and no double-byte code starts with a shift-in. */
  predicate Framed(t: Tables, p: Piece)
  {
    match p
    case Single(b) => b != ShiftOut
    case Double(c) => c / 256 != ShiftIn
    case Sub => t.sub != ShiftOut
  }

  predicate AllFramed(t: Tables, pieces: seq<Piece>)
  {
    forall i :: 0 <= i < |pieces| ==> Framed(t, pieces[i])
  }

  /** What a piece decodes to. */
  function Read(t: Tables, p: Piece, single: bool): seq<nat>
  {
    match p
    case Single(b) => [t.sbTo(b)]
    case Double(c) => DecodeCode(t, c)
    case Sub => if single then [t.sbTo(t.sub)] else DecodeCode(t, DoubleSub)
  }

  function ReadAll(t: Tables, pieces: seq<Piece>, single: bool): seq<nat>
  {
    if pieces == [] then []
    else Read(t, pieces[0], single) + ReadAll(t, pieces[1..], SingleAfter(pieces[0], single))
  }

  /** The mode after some bytes, and None when they end inside a double-byte code. */
  function ModeAfter(data: seq<nat>, single: bool): Option<bool>
  {
    if data == [] then Some(single)
    else if single then ModeAfter(data[1..], data[0] != ShiftOut)
    else if data[0] == ShiftIn then ModeAfter(data[1..], true)
    else if |data| == 1 then None
    else ModeAfter(data[2..], false)
  }

  lemma PutThen(t: Tables, p: Piece, single: bool, rest: seq<nat>)
    requires Framed(t, p)
    ensures DecodeFrom(t, Put(t, p, single) + rest, single) ==
            Read(t, p, single) + DecodeFrom(t, rest, SingleAfter(p, single))
    ensures ModeAfter(Put(t, p, single) + rest, single) == ModeAfter(rest, SingleAfter(p, single))
  {
    CodesThen(t, p, single, rest);
    hide Framed, Codes, Read, DecodeFrom, ModeAfter;
    var to := SingleAfter(p, single);
    ShiftThen(t, single, to, Codes(t, p, single) + rest);
    assert Put(t, p, single) + rest == Shift(single, to) + (Codes(t, p, single) + rest);
  }

  lemma ShiftThen(t: Tables, single: bool, to: bool, rest: seq<nat>)
    ensures DecodeFrom(t, Shift(single, to) + rest, single) == DecodeFrom(t, rest, to)
    ensures ModeAfter(Shift(single, to) + rest, single) == ModeAfter(rest, to)
  {
    var all := Shift(single, to) + rest;
    if to != single {
      assert all[1..] == rest;
    } else {
      assert all == rest;
    }
  }

  lemma CodesThen(t: Tables, p: Piece, single: bool, rest: seq<nat>)
    requires Framed(t, p)
    ensures var to := SingleAfter(p, single);
            && DecodeFrom(t, Codes(t, p, single) + rest, to) == Read(t, p, single) + DecodeFrom(t, rest, to)
            && ModeAfter(Codes(t, p, single) + rest, to) == ModeAfter(rest, to)
  {
    var codes := Codes(t, p, single);
    var all := codes + rest;
    if SingleAfter(p, single) {
      assert all[1..] == rest;
    } else {
      assert all[2..] == rest;
    }
  }

  /** Decoding the bytes of some pieces reads the pieces, and the bytes end in single-byte mode with every shift
      closed. */
  lemma {:induction false} DecodeEmitted(t: Tables, pieces: seq<Piece>, single: bool)
    requires AllFramed(t, pieces)
    ensures DecodeFrom(t, Emit(t, pieces, single), single) == ReadAll(t, pieces, single)
    ensures ModeAfter(Emit(t, pieces, single), single) == Some(true)
  {
    if pieces == [] {
      assert [ShiftIn][1..] == [];
    } else {
      hide Framed, Put, Read, DecodeFrom, ModeAfter;
      var next := SingleAfter(pieces[0], single);
      PutThen(t, pieces[0], single, Emit(t, pieces[1..], next));
      DecodeEmitted(t, pieces[1..], next);
    }
  }

  // ------------------------------------------------------------------ when text survives

  /** What the tables of the mixed CCSIDs have in common. A shift-out byte stands for U+000E only, no double-byte
      code starts with a shift-in, surrogates have no single byte, the substitution characters read as themselves,
      the code of a run of units reads as the run, and no unit has a code that reads as a run starting with it. */
  ghost predicate Regular(t: Tables)
  {
    && t.sub != ShiftOut && t.sbTo(t.sub) == SingleSubUnit && DecodeCode(t, DoubleSub) == [DoubleSubUnit]
    && (forall u: nat :: t.sbFrom(u) == ShiftOut ==> u == ShiftOut)
    && (forall b: nat :: t.sbTo(b) == ShiftOut ==> b == ShiftOut)
    && (forall u: nat :: t.dbFrom(u) / 256 != ShiftIn)
    && (forall u: nat :: Surrogate(u) ==> t.sbFrom(u) == t.sub)
    && (forall u: nat :: t.dbFrom(u) in t.toMulti ==>
          t.toMulti[t.dbFrom(u)] != [] && t.toMulti[t.dbFrom(u)][0] != u)
    && (forall s :: s in t.fromMulti ==> RunOk(t, s))
  }

  predicate RunOk(t: Tables, s: seq<nat>)
    requires s in t.fromMulti
  {
    t.fromMulti[s] / 256 != ShiftIn && t.fromMulti[s] != DoubleSub && DecodeCode(t, t.fromMulti[s]) == s
  }

  /** What the tables have for the text at this place reads back: its single byte, or the code of the unit or of
      the longest run that has one. A substituted unit does not. */
  predicate KeptAt(t: Tables, src: seq<nat>, i: nat)
    requires i < |src|
  {
    var s := StepAt(t, src, i);
    match s.piece
    case Single(b) => s.units == 1 && t.sbTo(b) == src[i]
    case Double(c) => DecodeCode(t, c) == src[i..i + s.units]
    case Sub => false
  }

  predicate Kept(t: Tables, src: seq<nat>, i: nat)
    requires i <= |src|
    decreases |src| - i
  {
    i == |src| || (KeptAt(t, src, i) && Kept(t, src, i + StepAt(t, src, i).units))
  }

  lemma CodeAtFacts(t: Tables, src: seq<nat>, i: nat)
    requires i < |src| && Regular(t)
    ensures var c := CodeAt(t, src, i);
            && c.code / 256 != ShiftIn
            && (c.code == DoubleSub && !Surrogate(src[i]) ==> c.units == 1)
            && (Surrogate(src[i]) && c.code != DoubleSub ==> DecodeCode(t, c.code) == src[i..i + c.units])
            && (DecodeCode(t, c.code) == src[i..i + c.units] || c.code == DoubleSub ||
                (DecodeCode(t, c.code) != [] && DecodeCode(t, c.code)[0] != src[i]))
  {
    LongestMatchFacts(t, src, i, Min(t.maxMulti, |src| - i));
    var n := LongestMatch(t, src, i, Min(t.maxMulti, |src| - i));
    hide LongestMatch;
    if n > 0 {
      assert RunOk(t, src[i..i + n]);
    }
    assert src[i..i + 1] == [src[i]];
  }

  lemma StepFramed(t: Tables, src: seq<nat>, i: nat)
    requires i < |src| && Regular(t) && src[i] != ShiftOut
    ensures Framed(t, StepAt(t, src, i).piece)
  {
    CodeAtFacts(t, src, i);
    hide CodeAt, DecodeCode;
  }

  lemma {:induction false} TextFramed(t: Tables, src: seq<nat>, i: nat)
    requires i <= |src| && Regular(t) && ShiftOut !in src
    ensures AllFramed(t, PiecesFrom(t, src, i))
    decreases |src| - i
  {
    if i < |src| {
      StepFramed(t, src, i);
      hide Framed, Regular, StepAt;
      TextFramed(t, src, i + StepAt(t, src, i).units);
    }
  }

  /** A step that is kept reads as the units it took; one that is not reads as something else from the start. */
  lemma StepReads(t: Tables, src: seq<nat>, i: nat, single: bool)
    requires i < |src| && Regular(t)
    ensures var s := StepAt(t, src, i);
            var read := Read(t, s.piece, single);
            if KeptAt(t, src, i) then read == src[i..i + s.units] else read != [] && read[0] != src[i]
  {
    CodeAtFacts(t, src, i);
    hide CodeAt, DecodeCode;
    assert src[i..i + 1] == [src[i]];
  }

  lemma {:induction false} TextReads(t: Tables, src: seq<nat>, i: nat, single: bool)
    requires i <= |src| && Regular(t)
    ensures ReadAll(t, PiecesFrom(t, src, i), single) == src[i..] <==> Kept(t, src, i)
    decreases |src| - i
  {
    hide StepAt, Read, Regular, KeptAt, ReadAll, PiecesFrom, Kept, CodeAt;
    if i == |src| {
      NoText(t, src, single);
    } else {
      var s := StepAt(t, src, i);
      StepReads(t, src, i, single);
      ReadNext(t, src, i, single);
      KeptNext(t, src, i);
      var next := i + s.units;
      TextReads(t, src, next, SingleAfter(s.piece, single));
      SplitEqual(Read(t, s.piece, single), ReadAll(t, PiecesFrom(t, src, next), SingleAfter(s.piece, single)),
                 src, i, next);
    }
  }

  lemma NoText(t: Tables, src: seq<nat>, single: bool)
    ensures ReadAll(t, PiecesFrom(t, src, |src|), single) == [] == src[|src|..] && Kept(t, src, |src|)
  {}

  lemma KeptNext(t: Tables, src: seq<nat>, i: nat)
    requires i < |src|
    ensures Kept(t, src, i) <==> KeptAt(t, src, i) && Kept(t, src, i + StepAt(t, src, i).units)
  {
    hide StepAt, KeptAt;
  }

  lemma ReadNext(t: Tables, src: seq<nat>, i: nat, single: bool)
    requires i < |src|
    ensures var s := StepAt(t, src, i);
            ReadAll(t, PiecesFrom(t, src, i), single) ==
            Read(t, s.piece, single) + ReadAll(t, PiecesFrom(t, src, i + s.units), SingleAfter(s.piece, single))
  {
    hide StepAt, Read;
    var s := StepAt(t, src, i);
    var rest := PiecesFrom(t, src, i + s.units);
    assert ([s.piece] + rest)[1..] == rest;
  }

  lemma SplitEqual(a: seq<nat>, b: seq<nat>, src: seq<nat>, i: nat, next: nat)
    requires i < next <= |src|
    ensures a == src[i..next] ==> (a + b == src[i..] <==> b == src[next..])
    ensures a != [] && a[0] != src[i] ==> a + b != src[i..]
  {
    assert src[i..] == src[i..next] + src[next..];
    assert b == (a + b)[|a|..];
    if a == src[i..next] {
      assert src[next..] == src[i..][|a|..];
    }
    if a != [] && a[0] != src[i] {
      assert (a + b)[0] == a[0] && src[i..][0] == src[i];
    }
  }

  function Encoded(t: Tables, src: seq<nat>): seq<nat> { Emit(t, PiecesFrom(t, src, 0), true) }

  /** The encoding of any text without U+000E has balanced shifts and ends in single-byte mode, and decoding
      returns exactly the texts that the tables keep at every step. */
  lemma MixedRoundTrip(t: Tables, src: seq<nat>)
    requires Regular(t) && ShiftOut !in src
    ensures ModeAfter(Encoded(t, src), true) == Some(true)
    ensures DecodeFrom(t, Encoded(t, src), true) == src <==> Kept(t, src, 0)
  {
    TextFramed(t, src, 0);
    DecodeEmitted(t, PiecesFrom(t, src, 0), true);
    TextReads(t, src, 0, true);
    assert src[0..] == src;
  }

  // ------------------------------------------------------------------ U+000E

  /** No double-byte code reads as U+000E. */
  ghost predicate NoCodeForShiftOut(t: Tables) { forall code: nat :: ShiftOut !in DecodeCode(t, code) }

  lemma {:induction false} NeverShiftOut(t: Tables, data: seq<nat>, single: bool)
    requires Regular(t) && NoCodeForShiftOut(t)
    ensures ShiftOut !in DecodeFrom(t, data, single)
    decreases |data|
  {
    if data != [] {
      hide DecodeCode;
      if single {
        NeverShiftOut(t, data[1..], data[0] != ShiftOut);
      } else if data[0] == ShiftIn {
        NeverShiftOut(t, data[1..], true);
      } else if |data| > 1 {
        NeverShiftOut(t, data[2..], false);
      }
    }
  }

  /** A text survives exactly when it has no U+000E and the tables keep it at every step. */
  lemma MixedRoundTripIff(t: Tables, src: seq<nat>)
    requires Regular(t) && NoCodeForShiftOut(t)
    ensures DecodeFrom(t, Encoded(t, src), true) == src <==> ShiftOut !in src && Kept(t, src, 0)
  {
    if ShiftOut in src {
      NeverShiftOut(t, Encoded(t, src), true);
    } else {
      MixedRoundTrip(t, src);
    }
  }

  /** U+000E alone is encoded as the shift-out byte, which is read as a shift: nothing comes back, and the shift is
      left open. */
  lemma ShiftOutExample(t: Tables)
    requires t.sbFrom(ShiftOut) == ShiftOut && t.sub != ShiftOut
    ensures Encoded(t, [ShiftOut]) == [ShiftOut]
    ensures DecodeFrom(t, [ShiftOut], true) == [] && ModeAfter([ShiftOut], true) == Some(false)
  {
    var src := [ShiftOut];
    assert StepAt(t, src, 0) == Step(Single(ShiftOut), 1);
    hide StepAt;
    assert PiecesFrom(t, src, 0) == [Single(ShiftOut)];
    var pieces := [Single(ShiftOut)];
    assert pieces[1..] == [] && src[1..] == [];
    assert Put(t, pieces[0], true) == [ShiftOut];
    assert Emit(t, pieces, true) == [ShiftOut] + Emit(t, [], true) == [ShiftOut];
  }
}
