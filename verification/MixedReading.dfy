/** What the decoder of mixed data makes of bytes: stretches of single-byte and of double-byte codes. */
module MixedReading {

  import opened MixedCodec

  /** The units of single bytes. */
  function SingleUnits(t: Tables, data: seq<nat>): (r: seq<nat>)
    ensures |r| == |data| && forall i :: 0 <= i < |data| ==> r[i] == t.sbTo(data[i])
  {
    seq(|data|, i requires 0 <= i < |data| => t.sbTo(data[i]))
  }

  datatype Pair = Pair(high: nat, low: nat)

  function PairBytes(pairs: seq<Pair>): seq<nat>
  {
    if pairs == [] then [] else [pairs[0].high, pairs[0].low] + PairBytes(pairs[1..])
  }

  function PairUnits(t: Tables, pairs: seq<Pair>): seq<nat>
  {
    if pairs == [] then []
    else
      var code := pairs[0].high * 256 + pairs[0].low;
      (if code in t.toMulti then t.toMulti[code] else [t.dbTo(code)]) + PairUnits(t, pairs[1..])
  }

  lemma {:induction false} SinglesThen(t: Tables, data: seq<nat>, rest: seq<nat>)
    requires 0x0E !in data
    ensures DecodeFrom(t, data + rest, true) == SingleUnits(t, data) + DecodeFrom(t, rest, true)
  {
    if data == [] {
      assert data + rest == rest;
      assert SingleUnits(t, data) == [];
      assert [] + DecodeFrom(t, rest, true) == DecodeFrom(t, rest, true);
    } else {
      assert (data + rest)[1..] == data[1..] + rest;
      SinglesThen(t, data[1..], rest);
      assert SingleUnits(t, data) == [t.sbTo(data[0])] + SingleUnits(t, data[1..]);
    }
  }

  lemma {:induction false} PairsThen(t: Tables, pairs: seq<Pair>, rest: seq<nat>)
    requires forall i :: 0 <= i < |pairs| ==> pairs[i].high != 0x0F
    ensures DecodeFrom(t, PairBytes(pairs) + rest, false) == PairUnits(t, pairs) + DecodeFrom(t, rest, false)
  {
    if pairs == [] {
      assert [] + rest == rest;
      assert [] + DecodeFrom(t, rest, false) == DecodeFrom(t, rest, false);
    } else {
      PairsSplit(t, pairs);
      hide DecodeFrom, PairBytes, PairUnits, DecodeCode;
      var p, later := pairs[0], pairs[1..];
      Assoc([p.high, p.low], PairBytes(later), rest);
      PairThen(t, p, PairBytes(later) + rest);
      PairsThen(t, later, rest);
      Assoc(DecodeCode(t, p.high * 256 + p.low), PairUnits(t, later), DecodeFrom(t, rest, false));
    }
  }

  lemma Assoc<T>(a: seq<T>, b: seq<T>, c: seq<T>)
    ensures (a + b) + c == a + (b + c)
  {}

  lemma PairsSplit(t: Tables, pairs: seq<Pair>)
    requires pairs != []
    ensures var p := pairs[0];
            && PairBytes(pairs) == [p.high, p.low] + PairBytes(pairs[1..])
            && PairUnits(t, pairs) == DecodeCode(t, p.high * 256 + p.low) + PairUnits(t, pairs[1..])
  {}

  lemma PairThen(t: Tables, p: Pair, later: seq<nat>)
    requires p.high != 0x0F
    ensures DecodeFrom(t, [p.high, p.low] + later, false) ==
            DecodeCode(t, p.high * 256 + p.low) + DecodeFrom(t, later, false)
  {
    var data := [p.high, p.low] + later;
    assert data[2..] == later && data[0] == p.high && data[1] == p.low;
  }

  lemma ShiftsRead(t: Tables, rest: seq<nat>)
    ensures DecodeFrom(t, [0x0E] + rest, true) == DecodeFrom(t, rest, false)
    ensures DecodeFrom(t, [0x0F] + rest, false) == DecodeFrom(t, rest, true)
  {
    assert ([0x0E] + rest)[1..] == rest && ([0x0F] + rest)[1..] == rest;
  }

  /** Single bytes, and then a stretch of double-byte codes between 0E and 0F, are read unit by unit; what follows is
      read as if it stood alone. */
  lemma StretchRead(t: Tables, singles: seq<nat>, pairs: seq<Pair>, rest: seq<nat>)
    requires 0x0E !in singles && forall i :: 0 <= i < |pairs| ==> pairs[i].high != 0x0F
    ensures DecodeFrom(t, singles + ([0x0E] + (PairBytes(pairs) + ([0x0F] + rest))), true) ==
            SingleUnits(t, singles) + (PairUnits(t, pairs) + DecodeFrom(t, rest, true))
  {
    SinglesThen(t, singles, [0x0E] + (PairBytes(pairs) + ([0x0F] + rest)));
    ShiftsRead(t, PairBytes(pairs) + ([0x0F] + rest));
    PairsThen(t, pairs, [0x0F] + rest);
    ShiftsRead(t, rest);
  }

  /** A stretch that is not ended is read to the end of the data, where half a code gives U+FFFD. */
  lemma StretchCut(t: Tables, singles: seq<nat>, pairs: seq<Pair>, half: seq<nat>)
    requires 0x0E !in singles && forall i :: 0 <= i < |pairs| ==> pairs[i].high != 0x0F
    requires half == [] || (|half| == 1 && half[0] != 0x0F)
    ensures DecodeFrom(t, singles + ([0x0E] + (PairBytes(pairs) + half)), true) ==
            SingleUnits(t, singles) + (PairUnits(t, pairs) + if half == [] then [] else [0xFFFD])
  {
    SinglesThen(t, singles, [0x0E] + (PairBytes(pairs) + half));
    ShiftsRead(t, PairBytes(pairs) + half);
    PairsThen(t, pairs, half);
  }

  /** All data is of this kind: single bytes to the end, or up to a stretch of double-byte codes. */
  lemma {:induction false} SinglesFirst(data: seq<nat>) returns (singles: seq<nat>, rest: seq<nat>)
    ensures data == singles + rest && 0x0E !in singles && (rest != [] ==> rest[0] == 0x0E)
  {
    if data == [] || data[0] == 0x0E {
      singles, rest := [], data;
    } else {
      singles, rest := SinglesFirst(data[1..]);
      singles := [data[0]] + singles;
    }
  }

  lemma {:induction false} PairsFirst(data: seq<nat>) returns (pairs: seq<Pair>, rest: seq<nat>)
    ensures data == PairBytes(pairs) + rest && forall i :: 0 <= i < |pairs| ==> pairs[i].high != 0x0F
    ensures rest == [] || rest[0] == 0x0F || |rest| == 1
  {
    if |data| < 2 || data[0] == 0x0F {
      pairs, rest := [], data;
    } else {
      pairs, rest := PairsFirst(data[2..]);
      pairs := [Pair(data[0], data[1])] + pairs;
      assert data == [data[0], data[1]] + data[2..];
      assert pairs[1..] + [] == pairs[1..];
    }
  }
}
