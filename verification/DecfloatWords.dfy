/** The encoder and decoders of DECFLOAT words as the driver runs them, proved against the layout. */
module DecfloatWords {
  import opened DecimalMath
  import opened DecfloatRounding
  import opened Declets
  import opened DecfloatCodec

  /** The rounding steps on a coefficient and an exponent that change as they go. */
  method RoundFinite(coef0: nat, exp0: int, f: Format) returns (r: Fitted)
    ensures r == Fit(coef0, exp0, f)
  {
    hide RoundDrop, NumDigits, Pow10;
    var coef, exp := coef0, exp0;
    if coef == 0 {
      if exp > f.qmax {
        exp := f.qmax;
      } else if exp < f.qmin {
        exp := f.qmin;
      }
      return Fits(coef, exp);
    }
    var n := NumDigits(coef);
    if n > f.precision {
      var drop := n - f.precision;
      coef := RoundDrop(coef, drop);
      exp := exp + drop;
      if NumDigits(coef) > f.precision {
        coef := RoundDrop(coef, 1);
        exp := exp + 1;
      }
    }
    if exp < f.qmin {
      var drop := f.qmin - exp;
      coef := if drop > NumDigits(coef) then 0 else RoundDrop(coef, drop);
      exp := f.qmin;
    }
    if exp > f.qmax {
      var shift := exp - f.qmax;
      if coef != 0 && NumDigits(coef) + shift > f.precision {
        return OutOfRange;
      }
      if coef != 0 {
        coef := coef * Pow10(shift);
      }
      exp := f.qmax;
    }
    r := Fits(coef, exp);
  }

  lemma ThreeMore(s: string, i: nat)
    requires AllDigits(s) && i + 3 <= |s|
    ensures ValueOf(s[..i + 3]) ==
            1000 * ValueOf(s[..i]) + 100 * CharDigit(s[i]) + 10 * CharDigit(s[i + 1]) + CharDigit(s[i + 2])
  {
    hide ValueOf;
    OneMore(s, i);
    OneMore(s, i + 1);
    OneMore(s, i + 2);
  }

  lemma OneMore(s: string, i: nat)
    requires AllDigits(s) && i < |s|
    ensures ValueOf(s[..i + 1]) == 10 * ValueOf(s[..i]) + CharDigit(s[i])
  {
    assert s[..i + 1][..i] == s[..i];
  }

  lemma PackedMore(v: nat, g: nat, k: nat)
    requires g < 1000
    ensures Packed(1000 * v + g, k + 1) == Packed(v, k) * 1024 + Declet(g)
  {
    hide Declet;
    assert (1000 * v + g) / 1000 == v && (1000 * v + g) % 1000 == g;
  }

  /** Packs a digit string, three digits to a declet, most significant first. */
  method PackDeclets(rest: string, table: array<int>) returns (cont: nat)
    requires AllDigits(rest) && |rest| % 3 == 0
    requires table.Length == 1000 && forall v :: 0 <= v < 1000 ==> table[v] == Declet(v)
    ensures cont == Packed(ValueOf(rest), |rest| / 3)
  {
    hide Packed, Declet, ValueOf;
    cont := 0;
    var i := 0;
    ghost var k: nat := 0;
    EmptyPacked(rest);
    while i + 3 <= |rest|
      invariant 0 <= i <= |rest| && i == 3 * k
      invariant cont == Packed(ValueOf(rest[..i]), k)
    {
      var g := CharDigit(rest[i]) * 100 + CharDigit(rest[i + 1]) * 10 + CharDigit(rest[i + 2]);
      ThreeMore(rest, i);
      PackedMore(ValueOf(rest[..i]), g, k);
      cont := cont * 1024 + table[g];
      i, k := i + 3, k + 1;
    }
    assert rest[..i] == rest;
  }

  lemma EmptyPacked(s: string)
    ensures Packed(ValueOf(s[..0]), 0) == 0
  {}

  lemma OneDigit(d: string)
    requires AllDigits(d) && |d| == 1
    ensures ValueOf(d) == CharDigit(d[0])
  {
    assert d[..0] == "";
  }

  lemma PaddedFields(coef: nat, f: Format, digits: string)
    requires Supported(f) && coef < Pow10(f.precision) && AllDigits(digits) && |digits| == f.precision
    requires ValueOf(digits) == coef
    ensures CharDigit(digits[0]) == Over(coef, Thousands(f))
    ensures ValueOf(digits[1..]) == Rest(coef, Thousands(f))
    ensures |digits[1..]| == 3 * DecletCount(f)
  {
    hide ValueOf, Pow10, Pow;
    var d, rest := digits[..1], digits[1..];
    assert digits == d + rest;
    ValueOfConcat(d, rest);
    OneDigit(d);
    ValueBound(rest);
    PowTen(DecletCount(f));
    Field(coef, Thousands(f), CharDigit(digits[0]), ValueOf(rest));
  }

  /** Encodes a finite value: fails as the rounding does, and otherwise yields words that read back as the
      rounded value. */
  method EncodeFinite(neg: bool, coef0: nat, exp0: int, f: Format, table: array<int>) returns (ok: bool, w: Words)
    requires Supported(f)
    requires table.Length == 1000 && forall v :: 0 <= v < 1000 ==> table[v] == Declet(v)
    ensures ok <==> Fit(coef0, exp0, f).Fits?
    ensures ok ==> w == PackFinite(neg, Fit(coef0, exp0, f).coef, Fit(coef0, exp0, f).exp, f)
    ensures ok ==> Read(w, f) == Finite(neg, Fit(coef0, exp0, f).coef, Fit(coef0, exp0, f).exp)
  {
    hide Declet, Packed, Unpacked, Pow10, Pow, ValueOf, Thousands, Read, Fit, NumDigits, HalfEven, DoubleTrap;
    var r := RoundFinite(coef0, exp0, f);
    if r.OutOfRange? {
      return false, Words(0, 0);
    }
    FitRounds(coef0, exp0, f);
    var coef, exp := r.coef, r.exp;
    var digits := PadTo(coef, f.precision);
    PaddedFields(coef, f, digits);
    var biased: nat := exp + f.bias;
    var coefMSD := CharDigit(digits[0]);
    var cont := PackDeclets(digits[1..], table);
    var head := Head(neg, Combination(Over(biased, ExpCont(f)), coefMSD), Rest(biased, ExpCont(f)), f);
    ok, w := true, Join(head, cont, f);
    ReadPacked(neg, coef, exp, f);
  }

  /** The digits of n with zeros in front, up to the given width. */
  function PadTo(n: nat, width: nat): (s: string)
    requires width > 0 && n < Pow10(width)
    ensures AllDigits(s) && |s| == width && ValueOf(s) == n
  {
    DigitsBelow(n, width);
    var z := Zeros(width - NumDigits(n));
    ValueOfConcat(z, DigitsOf(n));
    ValueOfZeros(|z|);
    z + DigitsOf(n)
  }

  // ------------------------------------------------------------------ decoding

  /** Thirty bits, three declets, to nine digits. */
  method BitsToDigits(bits: nat) returns (d: nat)
    ensures d == Unpacked(bits, 3) && d < BILLION
  {
    hide Unpack;
    d := 0;
    var i := 2;
    UnpackedThree(bits);
    var shifted := [bits, bits / 1024, bits / P20];
    while i >= 0
      invariant -1 <= i <= 2
      invariant i == 2 ==> d == 0
      invariant i == 1 ==> d == Unpack(bits / P20 % 1024)
      invariant i == 0 ==> d == Unpack(bits / P20 % 1024) * 1000 + Unpack(bits / 1024 % 1024)
      invariant i == -1 ==> d == Unpacked(bits, 3)
    {
      d := d * 1000 + Unpack(shifted[i] % 1024);
      i := i - 1;
    }
  }

  lemma UnpackedThree(bits: nat)
    ensures Unpacked(bits, 3) ==
            (Unpack(bits / P20 % 1024) * 1000 + Unpack(bits / 1024 % 1024)) * 1000 + Unpack(bits % 1024)
  {
    hide Unpack;
    assert bits / 1024 / 1024 == bits / P20;
    assert Unpacked(bits / P20, 1) == Unpack(bits / P20 % 1024);
  }

  const BILLION := 1_000_000_000

  lemma {:induction false} UnpackedStep(n: nat, j: nat)
    ensures Unpacked(n, j + 1) == Unpacked(n / 1024, j) * 1000 + Unpack(n % 1024)
  {}

  lemma LowBits(n: nat)
    ensures n % P30 % 1024 == n % 1024
    ensures n % P30 / 1024 % 1024 == n / 1024 % 1024
    ensures n % P30 / P20 % 1024 == n / P20 % 1024
    ensures n / 1024 / 1024 == n / P20 && n / P20 / 1024 == n / P30
  {
    var q, b := n / P30, n % P30;
    var b' := b / 1024;
    var b0, b1, b2 := b % 1024, b' % 1024, b' / 1024;
    ThirtyBits(n, q, b, b0, b1, b2);
  }

  lemma ThirtyBits(n: nat, q: nat, b: nat, b0: nat, b1: nat, b2: nat)
    requires n == q * P30 + b && b == (b2 * 1024 + b1) * 1024 + b0 && b0 < 1024 && b1 < 1024 && b2 < 1024
    ensures b % 1024 == n % 1024 == b0
    ensures b / 1024 % 1024 == n / 1024 % 1024 == b1
    ensures b / P20 % 1024 == n / P20 % 1024 == b2
    ensures n / 1024 / 1024 == n / P20 && n / P20 / 1024 == q
  {
    Field(b, 1024, b2 * 1024 + b1, b0);
    Field(n, 1024, q * P20 + b2 * 1024 + b1, b0);
    Field(b2 * 1024 + b1, 1024, b2, b1);
    Field(q * P20 + b2 * 1024 + b1, 1024, q * 1024 + b2, b1);
    Field(b, P20, b2, b1 * 1024 + b0);
    Field(n, P20, q * 1024 + b2, b1 * 1024 + b0);
    Field(q * 1024 + b2, 1024, q, b2);
    Field(b2, 1024, 0, b2);
  }

  /** The three lowest declets are the lowest thirty bits. */
  lemma UnpackedSplit(n: nat, i: nat)
    ensures Unpacked(n, i + 3) == Unpacked(n / P30, i) * BILLION + Unpacked(n % P30, 3)
  {
    hide Unpack, Unpacked;
    UnpackedStep(n, i + 2);
    UnpackedStep(n / 1024, i + 1);
    UnpackedStep(n / P20, i);
    UnpackedThree(n % P30);
    LowBits(n);
  }

  /** Twenty bits hold two declets. */
  lemma TopTwo(n: nat)
    requires n < P20
    ensures Unpacked(n, 3) == Unpacked(n, 2)
  {
    assert Unpack(0) == 0;
    hide Unpack, Unpacked;
    Field(n, P20, 0, n);
    UnpackedThree(n);
    UnpackedTwo(n);
    SmallQuotient(0, 1024);
  }

  lemma UnpackedTwo(n: nat)
    ensures Unpacked(n, 2) == Unpack(n / 1024 % 1024) * 1000 + Unpack(n % 1024)
  {
    hide Unpack;
    assert Unpacked(n / 1024, 1) == Unpack(n / 1024 % 1024);
  }

  /** Decodes the word of a DECFLOAT(16). */
  method DecodeDecfloat16(bits: nat) returns (r: Decimal)
    requires bits < P64
    ensures r == Read(Words(bits, 0), DECFLOAT16)
  {
    var neg := bits / P63 % 2 != 0;
    var combination: nat := bits / P58 % 32;
    if combination == 0x1f {
      return NaN(neg, bits / 0x0200_0000_0000_0000 % 2 != 0);
    }
    if combination == 0x1e {
      return Infinity(neg);
    }
    var exponentMSD, coefficientMSD := ExpMSD(combination), CoefMSD(combination);
    var exponent := bits / P50 % 256 + exponentMSD * 256 - 398;
    var coefCont := bits % P50;
    var coefficientLo := BitsToDigits(coefCont % P30);
    var coefficientHi := BitsToDigits(coefCont / P30 % P20);
    coefficientHi := coefficientHi + coefficientMSD * 1_000_000;
    r := Finite(neg, coefficientHi * BILLION + coefficientLo, exponent);
    Groups16(coefCont, coefficientMSD);
  }

  lemma Groups16(cont: nat, msd: nat)
    requires cont < P50
    ensures Coefficient(msd, cont, DECFLOAT16) ==
            (Unpacked(cont / P30 % P20, 3) + msd * 1_000_000) * BILLION + Unpacked(cont % P30, 3)
  {
    hide Unpacked, Unpack, Pow, Thousands;
    var top := cont / P30;
    SmallQuotient(top, P20);
    UnpackedSplit(cont, 2);
    TopTwo(top);
    ManyThousands();
    Sum16(Thousands(DECFLOAT16), msd, Unpacked(top, 2));
  }

  lemma Sum16(th: nat, msd: nat, a: nat)
    requires th == 1_000_000 * BILLION
    ensures msd * th + a * BILLION == (a + msd * 1_000_000) * BILLION
  {}

  /** The number whose digits stand in four groups, the last three of nine digits each. */
  function Joined(g: seq<nat>): nat
    requires |g| == 4
  {
    ((g[0] * BILLION + g[1]) * BILLION + g[2]) * BILLION + g[3]
  }

  predicate AreGroups(g: seq<nat>) { |g| == 4 && g[1] < BILLION && g[2] < BILLION && g[3] < BILLION }

  /** The groups of digits of the coefficient. */
  method DecodeGroups(hi: nat, lo: nat, coefficientMSD: nat) returns (g: seq<nat>)
    requires lo < P64
    ensures AreGroups(g)
    ensures Joined(g) == Coefficient(coefficientMSD, Continuation(Words(hi, lo), DECFLOAT34), DECFLOAT34)
  {
    hide Unpacked, Coefficient, Continuation;
    Groups34(hi, lo, coefficientMSD);
    var coefLo := BitsToDigits(lo % P30);
    var coefMeLo := BitsToDigits(lo / P30 % P30);
    var coefMeHi := BitsToDigits(hi % P26 * 16 + lo / P60 % 16);
    var coefHi := BitsToDigits(hi / P26 % P20);
    coefHi := coefHi + coefficientMSD * 1_000_000;
    g := [coefHi, coefMeHi, coefMeLo, coefLo];
  }

  /** Decodes the two words of a DECFLOAT(34); the coefficient comes in groups of digits as well. */
  method DecodeDecfloat34(hi: nat, lo: nat) returns (r: Decimal, groups: seq<nat>)
    requires hi < P64 && lo < P64
    ensures r == Read(Words(hi, lo), DECFLOAT34)
    ensures r.Finite? ==> AreGroups(groups) && r.coef == Joined(groups)
  {
    hide Joined, Coefficient, Continuation, AreGroups;
    groups := [];
    var neg := hi / P63 % 2 != 0;
    var combination: nat := hi / P58 % 32;
    if combination == 0x1f {
      return NaN(neg, hi / 0x0200_0000_0000_0000 % 2 != 0), [];
    }
    if combination == 0x1e {
      return Infinity(neg), [];
    }
    var exponentMSD, coefficientMSD := ExpMSD(combination), CoefMSD(combination);
    var exponent := hi / P46 % 4096 + exponentMSD * 4096 - 6176;
    groups := DecodeGroups(hi, lo, coefficientMSD);
    r := Finite(neg, GroupsJoined(groups), exponent);
  }

  function GroupsJoined(g: seq<nat>): (n: nat)
    ensures AreGroups(g) ==> n == Joined(g)
  {
    if |g| == 4 then Joined(g) else 0
  }

  /** The four groups of thirty bits of the declets of two words. */
  lemma GroupBits(h: nat, lo: nat)
    requires h < P46 && lo < P64
    ensures var c := h * P64 + lo;
            && c % P30 == lo % P30
            && c / P30 % P30 == lo / P30 % P30
            && c / P30 / P30 % P30 == h % P26 * 16 + lo / P60 % 16
            && c / P30 / P30 / P30 == h / P26
  {
    var c := h * P64 + lo;
    var l0, l1 := lo % P30, lo / P30;
    Field(c, P30, h * (P30 * 16) + l1, l0);
    var c1 := h * (P30 * 16) + l1;
    var l2 := l1 / P30;
    assert l2 == lo / P60 && l2 < 16;
    Field(c1, P30, h * 16 + l2, l1 % P30);
    var c2 := h * 16 + l2;
    var g, k := h / P26, h % P26;
    assert h == g * P26 + k;
    Field(c2, P30, g, k * 16 + l2);
  }

  lemma Groups34(hi: nat, lo: nat, msd: nat)
    requires lo < P64
    ensures Coefficient(msd, Continuation(Words(hi, lo), DECFLOAT34), DECFLOAT34) ==
            (((Unpacked(hi / P26 % P20, 3) + msd * 1_000_000) * BILLION + Unpacked(hi % P26 * 16 + lo / P60 % 16, 3))
             * BILLION + Unpacked(lo / P30 % P30, 3)) * BILLION + Unpacked(lo % P30, 3)
  {
    hide Unpacked, Unpack, Pow, Thousands, Coefficient, Continuation;
    var c, g0, g1, g2, top := GroupsOf(hi, lo);
    FromGroups(msd, c, g0, g1, g2, top);
  }

  lemma GroupsOf(hi: nat, lo: nat) returns (c: nat, g0: nat, g1: nat, g2: nat, top: nat)
    requires lo < P64
    ensures c == Continuation(Words(hi, lo), DECFLOAT34)
    ensures g0 == lo % P30 && g1 == lo / P30 % P30 && g2 == hi % P26 * 16 + lo / P60 % 16 && top == hi / P26 % P20
    ensures c % P30 == g0 && c / P30 % P30 == g1 && c / P30 / P30 % P30 == g2 && c / P30 / P30 / P30 == top
  {
    var h := hi % P46;
    c := Continuation(Words(hi, lo), DECFLOAT34);
    HighBits(hi);
    GroupBits(h, lo);
    g0, g1, g2, top := lo % P30, lo / P30 % P30, hi % P26 * 16 + lo / P60 % 16, hi / P26 % P20;
  }

  /** The coefficient from the groups of thirty bits of the declets. */
  lemma FromGroups(msd: nat, c: nat, g0: nat, g1: nat, g2: nat, top: nat)
    requires c % P30 == g0 && c / P30 % P30 == g1 && c / P30 / P30 % P30 == g2 && c / P30 / P30 / P30 == top < P20
    ensures Coefficient(msd, c, DECFLOAT34) ==
            (((Unpacked(top, 3) + msd * 1_000_000) * BILLION + Unpacked(g2, 3)) * BILLION + Unpacked(g1, 3)) * BILLION
            + Unpacked(g0, 3)
  {
    hide Unpacked, Unpack, Pow, Thousands;
    SplitEleven(c, c / P30, c / P30 / P30);
    TopTwo(top);
    ManyThousands();
    Sum34(Thousands(DECFLOAT34), msd, Unpacked(top, 2), Unpacked(g2, 3), Unpacked(g1, 3));
  }

  lemma SplitEleven(c: nat, c1: nat, c2: nat)
    requires c1 == c / P30 && c2 == c1 / P30
    ensures Unpacked(c, 11) ==
            ((Unpacked(c2 / P30, 2) * BILLION + Unpacked(c2 % P30, 3)) * BILLION + Unpacked(c1 % P30, 3)) * BILLION
            + Unpacked(c % P30, 3)
  {
    hide Unpacked;
    UnpackedSplit(c, 8);
    UnpackedSplit(c1, 5);
    UnpackedSplit(c2, 2);
  }

  lemma Sum34(th: nat, msd: nat, a: nat, b: nat, c: nat)
    requires th == 1_000_000 * BILLION * BILLION * BILLION
    ensures msd * th + ((a * BILLION + b) * BILLION + c) * BILLION ==
            (((a + msd * 1_000_000) * BILLION + b) * BILLION + c) * BILLION
  {}

  lemma HighBits(hi: nat)
    ensures hi % P46 % P26 == hi % P26
    ensures hi % P46 / P26 == hi / P26 % P20
  {
    var q, b := hi / P46, hi % P46;
    var g, k := b / P26, b % P26;
    Field(hi, P26, q * P20 + g, k);
    Field(q * P20 + g, P20, q, g);
  }

  lemma ManyThousands()
    ensures Thousands(DECFLOAT16) == 1_000_000 * BILLION
    ensures Thousands(DECFLOAT34) == 1_000_000 * BILLION * BILLION * BILLION
  {
    assert Pow(1000, 2) == 1_000_000 && Pow(1000, 3) == BILLION;
    assert Pow(1000, 4) == 1000 * BILLION && Pow(1000, 5) == 1_000_000 * BILLION;
    assert Pow(1000, 6) == BILLION * BILLION && Pow(1000, 7) == 1000 * (BILLION * BILLION);
    assert Pow(1000, 8) == 1_000_000 * (BILLION * BILLION);
    assert Pow(1000, 9) == BILLION * BILLION * BILLION;
    assert Pow(1000, 10) == 1000 * (BILLION * BILLION * BILLION);
    assert Pow(1000, 11) == 1_000_000 * (BILLION * BILLION * BILLION);
  }
}
