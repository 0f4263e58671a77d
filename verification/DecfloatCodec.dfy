/** DECFLOAT values as the 64- and 128-bit words of the wire, and back. A word is the unsigned number its
    big-endian bytes denote; fields that do not overlap are put together by addition. */
module DecfloatCodec {
  import opened DecimalMath
  import opened DecfloatRounding
  import opened Declets

  const P20 := 0x10_0000
  const P26 := 0x400_0000
  const P30 := 0x4000_0000
  const P46 := 0x4000_0000_0000
  const P50 := 0x4_0000_0000_0000
  const P58 := 0x400_0000_0000_0000
  const P60 := 0x1000_0000_0000_0000
  const P63 := 0x8000_0000_0000_0000
  const P64 := 0x1_0000_0000_0000_0000

  datatype Decimal = Finite(neg: bool, coef: nat, exp: int) | Infinity(neg: bool) | NaN(neg: bool, signaling: bool)

  datatype Words = Words(hi: nat, lo: nat)

  // ------------------------------------------------------------------ layout

  function ExpCont(f: Format): (n: nat) ensures n > 0 { if f == DECFLOAT16 then 256 else 4096 }
  function ContHi(f: Format): (n: nat) ensures n > 0 { if f == DECFLOAT16 then P50 else P46 }
  function DecletCount(f: Format): nat { if f == DECFLOAT16 then 5 else 11 }
  function Thousands(f: Format): (n: nat) ensures n > 0 { Pow(1000, DecletCount(f)) }

  /** The combination field: the two leading exponent bits and the leading digit. */
  function Combination(expMSD: nat, coefMSD: nat): nat
  {
    if coefMSD < 8 then expMSD * 8 + coefMSD else 0x18 + expMSD * 2 + (coefMSD - 8)
  }

  /** The words of a finite value that fits the format. */
  function PackFinite(neg: bool, coef: nat, exp: int, f: Format): Words
    requires Supported(f) && f.qmin <= exp
  {
    var biased: nat := exp + f.bias;
    Join(Head(neg, Combination(Over(biased, ExpCont(f)), Over(coef, Thousands(f))), Rest(biased, ExpCont(f)), f),
         Packed(Rest(coef, Thousands(f)), DecletCount(f)), f)
  }

  function Over(n: nat, m: nat): nat requires m > 0 { n / m }
  function Rest(n: nat, m: nat): (r: nat) requires m > 0 ensures r < m { n % m }

  /** The declets follow the head, in the low word first when there are two. */
  function Join(head: nat, cont: nat, f: Format): Words
  {
    if f == DECFLOAT16 then Words(head + cont, 0) else Words(head + cont / P64, cont % P64)
  }

  /** The sign, combination and exponent continuation fields of the high word. */
  function Head(neg: bool, comb: nat, expCont: nat, f: Format): nat
  {
    (if neg then P63 else 0) + comb * P58 + expCont * ContHi(f)
  }

  function ExpMSD(comb: nat): nat { if comb >= 0x18 then comb / 2 % 4 else comb / 8 }

  function CoefMSD(comb: nat): nat { if comb >= 0x18 then 8 + comb % 2 else comb % 8 }

  function Continuation(w: Words, f: Format): nat
  {
    var c: nat := w.hi % ContHi(f);
    if f == DECFLOAT16 then c else c * P64 + w.lo
  }

  function Times(a: nat, b: nat): nat { a * b }

  function Coefficient(msd: nat, cont: nat, f: Format): nat
  {
    Times(msd, Thousands(f)) + Unpacked(cont, DecletCount(f))
  }

  function Exponent(msd: nat, expCont: nat, f: Format): int { expCont + msd * ExpCont(f) - f.bias }

  /** What two words of the format denote. */
  function Read(w: Words, f: Format): Decimal
  {
    var neg := w.hi / P63 % 2 == 1;
    var comb: nat := w.hi / P58 % 32;
    if comb == 0x1f then NaN(neg, w.hi / 0x0200_0000_0000_0000 % 2 == 1)
    else if comb == 0x1e then Infinity(neg)
    else
      Finite(neg,
             Coefficient(CoefMSD(comb), Continuation(w, f), f),
             Exponent(ExpMSD(comb), w.hi / ContHi(f) % ExpCont(f), f))
  }

  lemma DivMod(a: nat, m: nat, b: nat)
    requires b < m
    ensures (a * m + b) / m == a && (a * m + b) % m == b
  {
    var n := a * m + b;
    var q, r := n / m, n % m;
    assert n == q * m + r;
    SameQuotient(a, q, m, b, r);
  }

  lemma SameQuotient(a: nat, q: nat, m: nat, b: nat, r: nat)
    requires a * m + b == q * m + r && b < m && r < m
    ensures a == q && b == r
  {
    MulOrder(a + 1, q, m);
    MulOrder(q + 1, a, m);
  }

  /** The combination field tells its two parts apart, and is never that of an infinity or a NaN. */
  lemma CombinationFields(expMSD: nat, coefMSD: nat)
    requires expMSD < 3 && coefMSD < 10
    ensures var c := Combination(expMSD, coefMSD);
            && c < 0x1e
            && (c >= 0x18 <==> coefMSD >= 8)
            && ExpMSD(c) == expMSD
            && CoefMSD(c) == coefMSD
  {}

  lemma Field(n: nat, m: nat, a: nat, b: nat)
    requires n == a * m + b && b < m
    ensures n / m == a && n % m == b
  {
    DivMod(a, m, b);
  }

  /** The fields of the high word can be read back. */
  lemma HeadFields(neg: bool, comb: nat, expCont: nat, rest: nat, f: Format)
    requires Supported(f) && comb < 32 && expCont < ExpCont(f) && rest < ContHi(f)
    ensures var hi := Head(neg, comb, expCont, f) + rest;
            && hi < P64
            && (hi / P63 % 2 == 1 <==> neg)
            && hi / P58 % 32 == comb
            && hi / ContHi(f) % ExpCont(f) == expCont
            && hi % ContHi(f) == rest
  {
    var s := if neg then 1 else 0;
    var hi := Head(neg, comb, expCont, f) + rest;
    if f == DECFLOAT16 {
      HeadFields16(hi, s, comb, expCont, rest);
    } else {
      HeadFields34(hi, s, comb, expCont, rest);
    }
  }

  lemma HeadFields16(hi: nat, s: nat, comb: nat, e: nat, rest: nat)
    requires hi == s * P63 + comb * P58 + e * P50 + rest
    requires s < 2 && comb < 32 && e < 256 && rest < P50
    ensures hi < P64 && hi / P63 == s && hi / P58 % 32 == comb && hi / P50 % 256 == e && hi % P50 == rest
  {
    Field(hi, P63, s, comb * P58 + e * P50 + rest);
    Field(hi, P58, s * 32 + comb, e * P50 + rest);
    Field(hi, P50, (s * 32 + comb) * 256 + e, rest);
  }

  lemma HeadFields34(hi: nat, s: nat, comb: nat, e: nat, rest: nat)
    requires hi == s * P63 + comb * P58 + e * P46 + rest
    requires s < 2 && comb < 32 && e < 4096 && rest < P46
    ensures hi < P64 && hi / P63 == s && hi / P58 % 32 == comb && hi / P46 % 4096 == e && hi % P46 == rest
  {
    Field(hi, P63, s, comb * P58 + e * P46 + rest);
    Field(hi, P58, s * 32 + comb, e * P46 + rest);
    Field(hi, P46, (s * 32 + comb) * 4096 + e, rest);
  }

  lemma {:induction false} PowTen(j: nat)
    ensures Pow(1000, j) == Pow10(3 * j)
  {
    if j > 0 {
      PowTen(j - 1);
      assert Pow10(3 * j) == 10 * Pow10(3 * j - 1) == 100 * Pow10(3 * j - 2) == 1000 * Pow10(3 * (j - 1));
    }
  }

  lemma CoefficientRange(f: Format)
    requires Supported(f)
    ensures Pow10(f.precision) == 10 * Thousands(f)
  {
    PowTen(DecletCount(f));
    assert f.precision == 3 * DecletCount(f) + 1;
  }

  lemma PowersOf1024()
    ensures Pow(1024, 5) == P50
    ensures Pow(1024, 11) == P46 * P64
  {
    var p2 := Pow(1024, 2);
    assert p2 == P20;
    assert Pow(1024, 3) == P30;
    assert Pow(1024, 4) == P30 * 1024;
    var p5 := Pow(1024, 5);
    assert p5 == P50;
    assert Pow(1024, 6) == 1024 * P50;
    assert Pow(1024, 7) == P20 * P50;
    assert Pow(1024, 8) == P30 * P50;
    assert Pow(1024, 9) == 1024 * P30 * P50;
    assert Pow(1024, 10) == P50 * P50;
    assert Pow(1024, 11) == 1024 * (P50 * P50);
  }

  lemma LeadingDigit(coef: nat, th: nat)
    requires th > 0 && coef < 10 * th
    ensures Over(coef, th) < 10 && Over(coef, th) * th + Rest(coef, th) == coef
  {
    if coef / th >= 10 {
      MulOrder(10, coef / th, th);
    }
  }

  /** The declets come back out of the joined words. */
  lemma Rejoined(neg: bool, comb: nat, expCont: nat, cont: nat, f: Format)
    requires Supported(f) && comb < 32 && expCont < ExpCont(f) && cont < Pow(1024, DecletCount(f))
    ensures var w := Join(Head(neg, comb, expCont, f), cont, f);
            && Continuation(w, f) == cont
            && w.hi < P64 && w.lo < P64
            && (w.hi / P63 % 2 == 1 <==> neg)
            && w.hi / P58 % 32 == comb
            && w.hi / ContHi(f) % ExpCont(f) == expCont
  {
    PowersOf1024();
    hide Pow, Head;
    if f == DECFLOAT16 {
      HeadFields(neg, comb, expCont, cont, f);
    } else {
      HeadFields(neg, comb, expCont, cont / P64, f);
    }
  }

  lemma ExponentSplit(biased: nat, m: nat)
    requires m > 0 && biased < 3 * m
    ensures Over(biased, m) < 3 && Rest(biased, m) + Over(biased, m) * m == biased
  {
    if biased / m >= 3 {
      MulOrder(3, biased / m, m);
    }
  }

  /** Reading the words of a packed value gives exactly its sign, coefficient and exponent; in particular no
      finite value is packed with the combination field of an infinity or a NaN. */
  lemma ReadPacked(neg: bool, coef: nat, exp: int, f: Format)
    requires Supported(f) && f.qmin <= exp <= f.qmax && coef < Pow10(f.precision)
    ensures Read(PackFinite(neg, coef, exp, f), f) == Finite(neg, coef, exp)
  {
    hide Pow10, Pow, Thousands, Packed, Unpacked, Combination, ExpMSD, CoefMSD, Over, Rest, Join, Head, Continuation;
    var biased: nat := exp + f.bias;
    var th := Thousands(f);
    CoefficientRange(f);
    LeadingDigit(coef, th);
    ExponentSplit(biased, ExpCont(f));
    var expMSD, msd := Over(biased, ExpCont(f)), Over(coef, th);
    CombinationFields(expMSD, msd);
    var cont := PackedDeclets(Rest(coef, th), f);
    Rejoined(neg, Combination(expMSD, msd), Rest(biased, ExpCont(f)), cont, f);
  }

  lemma PackedDeclets(v: nat, f: Format) returns (cont: nat)
    requires v < Thousands(f)
    ensures cont == Packed(v, DecletCount(f)) && cont < Pow(1024, DecletCount(f))
    ensures Unpacked(cont, DecletCount(f)) == v
  {
    cont := Packed(v, DecletCount(f));
    PackedBound(v, DecletCount(f));
    UnpackedPacked(v, DecletCount(f));
  }
}
