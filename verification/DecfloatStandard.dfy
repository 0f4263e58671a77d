/** The layout of IEEE 754-2008 (sections 3.5.1 and 3.5.2, table 3.6) in its own numbers, and that the words follow
    it. */
module DecfloatStandard {
  import opened DecimalMath
  import opened DecfloatRounding
  import opened Declets
  import opened DecfloatCodec

  // ------------------------------------------------------------------ declets

  /** The ten bits of three decimal digits, by which of them are 8 or 9. */
  predicate EncodesDigits(n: nat, h: nat, t: nat, u: nat)
  {
    && (h < 8 && t < 8 && u < 8 ==> n == 128 * h + 16 * t + u)
    && (h < 8 && t < 8 && u >= 8 ==> n == 128 * h + 16 * t + 8 + (u - 8))
    && (h < 8 && t >= 8 && u < 8 ==> n == 128 * h + 32 * (u / 2) + 16 * (t - 8) + 10 + u % 2)
    && (h >= 8 && t < 8 && u < 8 ==> n == 256 * (u / 2) + 128 * (h - 8) + 16 * t + 12 + u % 2)
    && (h < 8 && t >= 8 && u >= 8 ==> n == 128 * h + 64 + 16 * (t - 8) + 14 + (u - 8))
    && (h >= 8 && t < 8 && u >= 8 ==> n == 256 * (t / 2) + 128 * (h - 8) + 32 + 16 * (t % 2) + 14 + (u - 8))
    && (h >= 8 && t >= 8 && u < 8 ==> n == 256 * (u / 2) + 128 * (h - 8) + 16 * (t - 8) + 14 + u % 2)
    && (h >= 8 && t >= 8 && u >= 8 ==> n == 128 * (h - 8) + 96 + 16 * (t - 8) + 14 + (u - 8))
  }

  lemma PackedDigits(h: nat, t: nat, u: nat)
    requires h < 10 && t < 10 && u < 10
    ensures EncodesDigits(PackDigits(h, t, u), h, t, u)
  {
    var Triple(_, h2, h1, h0) := Split(h);
    var Triple(_, t2, t1, t0) := Split(t);
    var Triple(_, u2, u1, u0) := Split(u);
    assert t < 8 ==> t / 2 == 2 * t2 + t1 && t % 2 == t0;
    assert u < 8 ==> u / 2 == 2 * u2 + u1 && u % 2 == u0;
  }

  /** Bits in which the two highest do not matter: all three digits are 8 or 9. */
  predicate AllLarge(b6: Bit, b5: Bit, b3: Bit, b2: Bit, b1: Bit)
  {
    b6 == 1 && b5 == 1 && b3 == 1 && b2 == 1 && b1 == 1
  }

  lemma SplitBack(d: nat, b2: Bit, b1: Bit, b0: Bit)
    ensures d == 4 * b2 + 2 * b1 + b0 ==> Split(d) == Triple(d, b2, b1, b0)
    ensures d == 8 + b0 ==> Split(d).d0 == b0
  {}

  /** The digits of ten bits pack to the same bits, with zeros for the two that do not matter. */
  lemma PackedBack(b9: Bit, b8: Bit, b7: Bit, b6: Bit, b5: Bit, b4: Bit, b3: Bit, b2: Bit, b1: Bit, b0: Bit)
    returns (h: nat, t: nat, u: nat)
    ensures h < 10 && t < 10 && u < 10 && Digits(b9, b8, b7, b6, b5, b4, b3, b2, b1, b0) == 100 * h + 10 * t + u
    ensures PackDigits(h, t, u) ==
            if AllLarge(b6, b5, b3, b2, b1) then Assemble(0, 0, b7, b6, b5, b4, b3, b2, b1, b0)
            else Assemble(b9, b8, b7, b6, b5, b4, b3, b2, b1, b0)
    ensures AllLarge(b6, b5, b3, b2, b1) <==> h >= 8 && t >= 8 && u >= 8
  {
    hide Assemble, Split;
    var two := b3 == 1 && b2 == 1 && b1 == 1;
    var largeH := (b3 == 1 && b2 == 1 && b1 == 0) || (two && !(b6 == 1 && b5 == 0));
    var largeT := (b3 == 1 && b2 == 0 && b1 == 1) || (two && !(b6 == 0 && b5 == 1));
    var largeU := (b3 == 1 && b2 == 0 && b1 == 0) || (two && !(b6 == 0 && b5 == 0));
    h := if largeH then 8 + b7 else 4 * b9 + 2 * b8 + b7;
    t := if largeT then 8 + b4 else if largeH && largeU then 4 * b9 + 2 * b8 + b4 else 4 * b6 + 2 * b5 + b4;
    u := if largeU then 8 + b0 else if largeH then 4 * b9 + 2 * b8 + b0
         else if largeT then 4 * b6 + 2 * b5 + b0 else 4 * b2 + 2 * b1 + b0;
    SplitBack(h, b9, b8, b7);
    SplitBack(t, b9, b8, b4);
    SplitBack(t, b6, b5, b4);
    SplitBack(u, b9, b8, b0);
    SplitBack(u, b6, b5, b0);
    SplitBack(u, b2, b1, b0);
  }

  lemma SameDigits(h: nat, t: nat, u: nat)
    requires h < 10 && t < 10 && u < 10
    ensures var v := 100 * h + 10 * t + u; v / 100 == h && v / 10 % 10 == t && v % 10 == u
  {}

  predicate Large(v: nat) { v / 100 >= 8 && v / 10 % 10 >= 8 && v % 10 >= 8 }

  /** What a declet of any bits decodes to is packed in those bits, but for the two that do not matter when all three
      digits are large. */
  lemma CanonicalOf(n: nat)
    requires n < 1024
    ensures Canonical(Unpack(n)) == if Large(Unpack(n)) then n % 256 else n
  {
    hide Digits, PackDigits, Assemble;
    var n1 := n / 2; var n2 := n1 / 2; var n3 := n2 / 2; var n4 := n3 / 2; var n5 := n4 / 2;
    var n6 := n5 / 2; var n7 := n6 / 2; var n8 := n7 / 2; var n9 := n8 / 2;
    assert Unpack(n) == Digits(n9 % 2, n8 % 2, n7 % 2, n6 % 2, n5 % 2, n4 % 2, n3 % 2, n2 % 2, n1 % 2, n % 2);
    hide Unpack;
    var h, t, u := PackedBack(n9 % 2, n8 % 2, n7 % 2, n6 % 2, n5 % 2, n4 % 2, n3 % 2, n2 % 2, n1 % 2, n % 2);
    SameDigits(h, t, u);
    BitsOf(n, n1, n2, n3, n4, n5, n6, n7, n8, n9);
  }

  lemma BitsOf(n: nat, n1: nat, n2: nat, n3: nat, n4: nat, n5: nat, n6: nat, n7: nat, n8: nat, n9: nat)
    requires n < 1024
    requires n1 == n / 2 && n2 == n1 / 2 && n3 == n2 / 2 && n4 == n3 / 2 && n5 == n4 / 2
    requires n6 == n5 / 2 && n7 == n6 / 2 && n8 == n7 / 2 && n9 == n8 / 2
    ensures n == Assemble(n9 % 2, n8 % 2, n7 % 2, n6 % 2, n5 % 2, n4 % 2, n3 % 2, n2 % 2, n1 % 2, n % 2)
    ensures n % 256 == Assemble(0, 0, n7 % 2, n6 % 2, n5 % 2, n4 % 2, n3 % 2, n2 % 2, n1 % 2, n % 2)
  {
    hide Assemble;
    Halved(n, n1); Halved(n1, n2); Halved(n2, n3); Halved(n3, n4); Halved(n4, n5);
    Halved(n5, n6); Halved(n6, n7); Halved(n7, n8); Halved(n8, n9);
    Chain(n, n1, n2, n3, n4, n5, n6, n7, n8, n9, n % 2, n1 % 2, n2 % 2, n3 % 2, n4 % 2, n5 % 2, n6 % 2, n7 % 2, n8 % 2);
    SmallQuotient(n9);
  }

  lemma Halved(n: nat, m: nat)
    requires m == n / 2
    ensures n == 2 * m + n % 2
  {}

  lemma SmallQuotient(n: nat)
    ensures n < 2 ==> n % 2 == n
  {}

  lemma Chain(n: nat, n1: nat, n2: nat, n3: nat, n4: nat, n5: nat, n6: nat, n7: nat, n8: nat, n9: nat,
              b0: Bit, b1: Bit, b2: Bit, b3: Bit, b4: Bit, b5: Bit, b6: Bit, b7: Bit, b8: Bit)
    requires n < 1024
    requires n == 2 * n1 + b0 && n1 == 2 * n2 + b1 && n2 == 2 * n3 + b2 && n3 == 2 * n4 + b3 && n4 == 2 * n5 + b4
    requires n5 == 2 * n6 + b5 && n6 == 2 * n7 + b6 && n7 == 2 * n8 + b7 && n8 == 2 * n9 + b8
    ensures n9 < 2 && n == Assemble(n9, b8, b7, b6, b5, b4, b3, b2, b1, b0)
    ensures n % 256 == Assemble(0, 0, b7, b6, b5, b4, b3, b2, b1, b0)
  {
    Field(n, 256, n8, Assemble(0, 0, b7, b6, b5, b4, b3, b2, b1, b0));
  }

  /** The table holds the declet of the standard for every three digits. */
  lemma DecletDigits(h: nat, t: nat, u: nat)
    requires h < 10 && t < 10 && u < 10
    ensures EncodesDigits(Declet(100 * h + 10 * t + u), h, t, u)
  {
    hide Unpack, PackDigits, EncodesDigits;
    var v := 100 * h + 10 * t + u;
    SameDigits(h, t, u);
    PackedDigits(h, t, u);
    DecletIsCanonical(v);
  }

  lemma DecletIsCanonical(v: nat)
    requires v < 1000
    ensures Declet(v) == Canonical(v)
  {
    hide Unpack, Canonical, Declet;
    HasDeclet(v);
    CanonicalOf(Declet(v));
    assert Canonical(v) <= Declet(v);
  }

  /** Every ten bits decode to the digits that the standard packs in them. */
  lemma DecodedDigits(n: nat) returns (h: nat, t: nat, u: nat)
    requires n < 1024
    ensures h < 10 && t < 10 && u < 10 && Unpack(n) == 100 * h + 10 * t + u
    ensures EncodesDigits(if h >= 8 && t >= 8 && u >= 8 then n % 256 else n, h, t, u)
  {
    hide Unpack, Canonical, EncodesDigits;
    var v := Unpack(n);
    ThreeDigits(v);
    h, t, u := v / 100, v / 10 % 10, v % 10;
    CanonicalOf(n);
    CanonicalDigits(v);
  }

  lemma CanonicalDigits(v: nat)
    requires v < 1000
    ensures EncodesDigits(Canonical(v), v / 100, v / 10 % 10, v % 10)
  {
    hide PackDigits, EncodesDigits;
    ThreeDigits(v);
    PackedDigits(v / 100, v / 10 % 10, v % 10);
  }

  // ------------------------------------------------------------------ words

  /** The two leading exponent bits and the leading digit of a finite value in five combination bits. */
  predicate Combines(g: nat, exponentTop: nat, digit: nat)
  {
    if g / 8 < 3 then exponentTop == g / 8 && digit == g % 8
    else g / 2 % 4 < 3 && exponentTop == g / 2 % 4 && digit == 8 + g % 2
  }

  /** The k declets of t, from the right, encode the digits of coef in threes. */
  predicate EncodesThrees(t: nat, coef: nat, k: nat)
  {
    k > 0 ==>
      && EncodesDigits(t % 1024, coef / 100 % 10, coef / 10 % 10, coef % 10)
      && EncodesThrees(t / 1024, coef / 1000, k - 1)
  }

  /** A decimal64 word: sign bit, combination, eight exponent bits with bias 398, five declets. */
  ghost predicate Decimal64(w: nat, neg: bool, coef: nat, exp: int)
  {
    && w < 0x1_0000_0000_0000_0000
    && w / 0x8000_0000_0000_0000 == (if neg then 1 else 0)
    && (exists top: nat, digit: nat ::
          && Combines(w / 0x400_0000_0000_0000 % 32, top, digit)
          && top * 256 + w / 0x4_0000_0000_0000 % 256 == exp + 398
          && digit == coef / Pow10(15))
    && EncodesThrees(w % 0x4_0000_0000_0000, coef, 5)
  }

  /** The two words of a decimal128: sign bit, combination, twelve exponent bits with bias 6176, eleven declets. */
  ghost predicate Decimal128(hi: nat, lo: nat, neg: bool, coef: nat, exp: int)
  {
    && hi < 0x1_0000_0000_0000_0000 && lo < 0x1_0000_0000_0000_0000
    && hi / 0x8000_0000_0000_0000 == (if neg then 1 else 0)
    && (exists top: nat, digit: nat ::
          && Combines(hi / 0x400_0000_0000_0000 % 32, top, digit)
          && top * 4096 + hi / 0x4000_0000_0000 % 4096 == exp + 6176
          && digit == coef / Pow10(33))
    && EncodesThrees(hi % 0x4000_0000_0000 * 0x1_0000_0000_0000_0000 + lo, coef, 11)
  }

  lemma CombinationCombines(top: nat, digit: nat)
    requires top < 3 && digit < 10
    ensures Combines(Combination(top, digit), top, digit)
  {}

  lemma HundredsTensUnits(n: nat, h: nat, t: nat, u: nat)
    requires h == n / 100 % 10 && t == n / 10 % 10 && u == n % 10
    ensures n % 1000 == 100 * h + 10 * t + u
  {
    var a := n / 10;
    var b := a / 10;
    assert n / 100 == b;
    assert n == (b / 10) * 1000 + (100 * h + 10 * t + u);
  }

  lemma DecletOfThree(n: nat)
    ensures EncodesDigits(Declet(n % 1000), n / 100 % 10, n / 10 % 10, n % 10)
  {
    hide EncodesDigits, Declet;
    var h, t, u := n / 100 % 10, n / 10 % 10, n % 10;
    HundredsTensUnits(n, h, t, u);
    DecletDigits(h, t, u);
  }

  lemma LowThree(coef: nat, p: nat, v: nat)
    requires p > 0 && v == coef % Times(1000, p)
    ensures v % 1000 == coef % 1000 && v / 1000 == coef / 1000 % p
  {
    var m := Times(1000, p);
    var q := QuotientOf(coef, m);
    LowThreeOf(coef, p, v, q);
  }

  lemma QuotientOf(n: nat, m: nat) returns (q: nat)
    requires m > 0
    ensures n == Times(q, m) + n % m && n % m < m
  {
    q := n / m;
  }

  lemma LowThreeOf(coef: nat, p: nat, v: nat, q: nat)
    requires p > 0 && coef == Times(q, Times(1000, p)) + v && v < Times(1000, p)
    ensures v % 1000 == coef % 1000 && v / 1000 == coef / 1000 % p
  {
    var a, b := v / 1000, v % 1000;
    Regroup(q, p, a, b);
    Field(coef, 1000, Times(q, p) + a, b);
    assert a < p;
    Field(coef / 1000, p, q, a);
  }

  lemma Regroup(q: nat, p: nat, a: nat, b: nat)
    ensures Times(q, Times(1000, p)) + (a * 1000 + b) == (Times(q, p) + a) * 1000 + b
  {
    assert q * (1000 * p) == 1000 * (q * p);
  }

  /** The declets of the digits below the leading one encode the digits of the coefficient. */
  lemma {:induction false} ThreesPacked(coef: nat, v: nat, k: nat)
    requires v == coef % Pow(1000, k)
    ensures EncodesThrees(Packed(v, k), coef, k)
  {
    hide EncodesDigits, Declet;
    if k > 0 {
      LowThree(coef, Pow(1000, k - 1), v);
      DecletOfThree(coef);
      ThreesPacked(coef / 1000, v / 1000, k - 1);
      Field(Packed(v, k), 1024, Packed(v / 1000, k - 1), Declet(v % 1000));
    }
  }

  lemma LeadingPower()
    ensures Pow(1000, 5) == Pow10(15) && Pow(1000, 11) == Pow10(33)
    ensures Thousands(DECFLOAT16) == Pow10(15) && Thousands(DECFLOAT34) == Pow10(33)
  {
    PowTen(5);
    PowTen(11);
    hide Pow, Pow10;
  }

  /** The parts of the words: the exponent and the leading digit in two pieces each, and the declets. */
  lemma Parts(neg: bool, coef: nat, exp: int, f: Format)
    returns (top: nat, digit: nat, low: nat, cont: nat)
    requires Supported(f) && coef < Pow10(f.precision) && f.qmin <= exp <= f.qmax
    ensures PackFinite(neg, coef, exp, f) == Join(Head(neg, Combination(top, digit), low, f), cont, f)
    ensures Combines(Combination(top, digit), top, digit) && Combination(top, digit) < 32
    ensures top * ExpCont(f) + low == exp + f.bias && low < ExpCont(f)
    ensures digit == Over(coef, Thousands(f))
    ensures cont < Pow(1024, DecletCount(f)) && EncodesThrees(cont, coef, DecletCount(f))
  {
    hide Pow10, Pow, Packed, Combination, Combines, Head, EncodesThrees, Thousands, Unpacked, Over, Rest, Join;
    var biased: nat := exp + f.bias;
    CoefficientRange(f);
    LeadingDigit(coef, Thousands(f));
    ExponentSplit(biased, ExpCont(f));
    top, digit, low := Over(biased, ExpCont(f)), Over(coef, Thousands(f)), Rest(biased, ExpCont(f));
    CombinationCombines(top, digit);
    CombinationFields(top, digit);
    cont := PackedDeclets(Rest(coef, Thousands(f)), f);
    LowThrees(coef, f);
  }

  lemma LowThrees(coef: nat, f: Format)
    requires Supported(f)
    ensures EncodesThrees(Packed(Rest(coef, Thousands(f)), DecletCount(f)), coef, DecletCount(f))
  {
    hide Pow, Packed, EncodesThrees;
    ThreesPacked(coef, Rest(coef, Thousands(f)), DecletCount(f));
  }

  /** The words of a finite decimal64 value are laid out as the standard says. */
  lemma PackedIsDecimal64(neg: bool, coef: nat, exp: int)
    requires coef < Pow10(16) && -398 <= exp <= 369
    ensures var w := PackFinite(neg, coef, exp, DECFLOAT16);
            w.lo == 0 && Decimal64(w.hi, neg, coef, exp)
  {
    hide Pow10, Pow, Combination, Combines, Head, EncodesThrees, Thousands, PackFinite;
    var top, digit, low, cont := Parts(neg, coef, exp, DECFLOAT16);
    LeadingPower();
    PowersOf1024();
    HeadFields(neg, Combination(top, digit), low, cont, DECFLOAT16);
  }

  /** The words of a finite decimal128 value are laid out as the standard says. */
  lemma PackedIsDecimal128(neg: bool, coef: nat, exp: int)
    requires coef < Pow10(34) && -6176 <= exp <= 6111
    ensures var w := PackFinite(neg, coef, exp, DECFLOAT34); Decimal128(w.hi, w.lo, neg, coef, exp)
  {
    hide Pow10, Pow, Combination, Combines, Head, EncodesThrees, Thousands, PackFinite, Join;
    var top, digit, low, cont := Parts(neg, coef, exp, DECFLOAT34);
    LeadingPower();
    Rejoined(neg, Combination(top, digit), low, cont, DECFLOAT34);
  }

  // ------------------------------------------------------------------ reading any words

  /** The k declets of t stand for the digits of v; of a declet of three large digits two bits do not matter. */
  predicate StandsForThrees(t: nat, v: nat, k: nat)
  {
    if k == 0 then v == 0
    else
      var (n, h, tens, u) := (t % 1024, v / 100 % 10, v / 10 % 10, v % 10);
      && EncodesDigits(if h >= 8 && tens >= 8 && u >= 8 then n % 256 else n, h, tens, u)
      && StandsForThrees(t / 1024, v / 1000, k - 1)
  }

  lemma {:induction false} UnpackedStands(t: nat, k: nat)
    ensures StandsForThrees(t, Unpacked(t, k), k)
  {
    hide Unpack, EncodesDigits;
    if k > 0 {
      var v := Unpacked(t, k);
      var three := Unpack(t % 1024);
      var h, tens, u := DecodedDigits(t % 1024);
      Field(v, 1000, Unpacked(t / 1024, k - 1), three);
      LastThree(v, Unpacked(t / 1024, k - 1), h, tens, u);
      UnpackedStands(t / 1024, k - 1);
    }
  }

  lemma LastThree(v: nat, q: nat, h: nat, t: nat, u: nat)
    requires v == q * 1000 + (100 * h + 10 * t + u) && h < 10 && t < 10 && u < 10
    ensures v / 100 % 10 == h && v / 10 % 10 == t && v % 10 == u
  {
    Field(v, 100, q * 10 + h, 10 * t + u);
    Field(v, 10, q * 100 + h * 10 + t, u);
  }

  /** A decimal128 number is read from its sign, combination, exponent and declets; 30 and 31 in the combination are
      infinities and NaNs, which signal by the bit after it. */
  lemma ReadsDecimal128(hi: nat, lo: nat) returns (top: nat, digit: nat, v: nat)
    requires hi < 0x1_0000_0000_0000_0000 && lo < 0x1_0000_0000_0000_0000
    ensures var d := Read(Words(hi, lo), DECFLOAT34);
            var g := hi / 0x400_0000_0000_0000 % 32;
            && d.neg == (hi / 0x8000_0000_0000_0000 == 1)
            && (d.Infinity? <==> g == 30) && (d.NaN? <==> g == 31)
            && (d.NaN? ==> d.signaling == (hi / 0x200_0000_0000_0000 % 2 == 1))
            && (d.Finite? ==>
                  && Combines(g, top, digit)
                  && d.exp + 6176 == top * 4096 + hi / 0x4000_0000_0000 % 4096
                  && d.coef == digit * Pow10(33) + v
                  && StandsForThrees(hi % 0x4000_0000_0000 * 0x1_0000_0000_0000_0000 + lo, v, 11))
  {
    hide Pow10, Unpacked, StandsForThrees, Thousands, Combines, ExpMSD, CoefMSD;
    LeadingPower();
    var g := hi / 0x400_0000_0000_0000 % 32;
    var t := hi % 0x4000_0000_0000 * 0x1_0000_0000_0000_0000 + lo;
    UnpackedStands(t, 11);
    top, digit, v := ExpMSD(g), CoefMSD(g), Unpacked(t, 11);
    if g < 30 {
      CombinationRead(g);
    }
  }

  lemma CombinationRead(g: nat)
    requires g < 30
    ensures Combines(g, ExpMSD(g), CoefMSD(g))
  {}

  /** The same for decimal64. */
  lemma ReadsDecimal64(w: nat) returns (top: nat, digit: nat, v: nat)
    requires w < 0x1_0000_0000_0000_0000
    ensures var d := Read(Words(w, 0), DECFLOAT16);
            var g := w / 0x400_0000_0000_0000 % 32;
            && d.neg == (w / 0x8000_0000_0000_0000 == 1)
            && (d.Infinity? <==> g == 30) && (d.NaN? <==> g == 31)
            && (d.NaN? ==> d.signaling == (w / 0x200_0000_0000_0000 % 2 == 1))
            && (d.Finite? ==>
                  && Combines(g, top, digit)
                  && d.exp + 398 == top * 256 + w / 0x4_0000_0000_0000 % 256
                  && d.coef == digit * Pow10(15) + v
                  && StandsForThrees(w % 0x4_0000_0000_0000, v, 5))
  {
    hide Pow10, Unpacked, StandsForThrees, Thousands, Combines, ExpMSD, CoefMSD;
    LeadingPower();
    var g := w / 0x400_0000_0000_0000 % 32;
    var t := w % 0x4_0000_0000_0000;
    UnpackedStands(t, 5);
    top, digit, v := ExpMSD(g), CoefMSD(g), Unpacked(t, 5);
    if g < 30 {
      CombinationRead(g);
    }
  }

  // ------------------------------------------------------------------ ranges

  lemma KeptAsIs(coef: nat, exp: int, f: Format)
    requires NumDigits(coef) <= f.precision && f.qmin <= exp <= f.qmax
    ensures Fit(coef, exp, f) == Fits(coef, exp)
  {}

  /** Exactly the coefficients of 16 digits with exponents from -398 to 369 are decimal64 values: they are kept as
      they are, and nothing else comes out of fitting. */
  lemma RangeOfDecimal64(coef: nat, exp: int)
    ensures coef < Pow10(16) && -398 <= exp <= 369 ==> Fit(coef, exp, DECFLOAT16) == Fits(coef, exp)
    ensures Fit(coef, exp, DECFLOAT16).Fits? ==>
              Fit(coef, exp, DECFLOAT16).coef < Pow10(16) && -398 <= Fit(coef, exp, DECFLOAT16).exp <= 369
    ensures Fit(Pow10(16) - 1, 370, DECFLOAT16).OutOfRange?
  {
    RangeOf(coef, exp, DECFLOAT16);
  }

  /** Exactly the coefficients of 34 digits with exponents from -6176 to 6111 are decimal128 values. */
  lemma RangeOfDecimal128(coef: nat, exp: int)
    ensures coef < Pow10(34) && -6176 <= exp <= 6111 ==> Fit(coef, exp, DECFLOAT34) == Fits(coef, exp)
    ensures Fit(coef, exp, DECFLOAT34).Fits? ==>
              Fit(coef, exp, DECFLOAT34).coef < Pow10(34) && -6176 <= Fit(coef, exp, DECFLOAT34).exp <= 6111
    ensures Fit(Pow10(34) - 1, 6112, DECFLOAT34).OutOfRange?
  {
    RangeOf(coef, exp, DECFLOAT34);
  }

  lemma RangeOf(coef: nat, exp: int, f: Format)
    requires Supported(f)
    ensures coef < Pow10(f.precision) && f.qmin <= exp <= f.qmax ==> Fit(coef, exp, f) == Fits(coef, exp)
    ensures Fit(coef, exp, f).Fits? ==>
              Fit(coef, exp, f).coef < Pow10(f.precision) && f.qmin <= Fit(coef, exp, f).exp <= f.qmax
    ensures Fit(Pow10(f.precision) - 1, f.qmax + 1, f).OutOfRange?
  {
    hide Pow10, NumDigits, HalfEven, DoubleTrap, RoundDrop;
    if coef < Pow10(f.precision) && f.qmin <= exp <= f.qmax {
      DigitsBelow(coef, f.precision);
      KeptAsIs(coef, exp, f);
    }
    if Fit(coef, exp, f).Fits? {
      FitRounds(coef, exp, f);
    }
    AllNines(f.precision);
  }

  lemma AllNines(n: nat)
    requires n > 0
    ensures Pow10(n) - 1 > 0 && NumDigits(Pow10(n) - 1) == n
  {
    Pow10Monotone(1, n);
    DigitBounds(Pow10(n) - 1);
    DigitsBelow(Pow10(n) - 1, n);
    var d := NumDigits(Pow10(n) - 1);
    assert Pow10(n) == 10 * Pow10(n - 1);
    if d < n {
      Pow10Monotone(d, n - 1);
    }
  }
}
