/** What number the text of a decimal parameter denotes, and when the field gets it right: an exponent of more than
    nine digits is not read but replaced by one of 100001, with its sign. */
module DecimalExponents {
  import opened Wrappers
  import opened DecimalMath
  import opened DecfloatCodec
  import opened DecfloatRounding
  import opened DecfloatText
  import opened DecimalDigits
  import opened PackedDecimals

  // ------------------------------------------------------------------ the number a text denotes

  /** The exponent a text spells, however long. */
  function ExponentValue(text: string): int
  {
    var signed := text != "" && (text[0] == '+' || text[0] == '-');
    var body := if signed then text[1..] else text;
    if !AllDigits(body) then 0 else if signed && text[0] == '-' then 0 - ValueOf(body) else ValueOf(body)
  }

  function Unsigned(text: string): string
  {
    var t := TrimSpace(text);
    if t != "" && (t[0] == '+' || t[0] == '-') then t[1..] else t
  }

  function WrittenExponent(text: string): int
  {
    var s := Unsigned(text);
    var i := IndexOf(s, 'e', 'E');
    if i < |s| then ExponentValue(s[i + 1..]) else 0
  }

  /** The number as written, with the exponent the text spells. */
  function Written(text: string): (n: Number)
    requires ReadNumber(text).Some?
    ensures AllDigits(n.intPart) && AllDigits(n.fracPart)
  {
    ReadNumber(text).value.(exp := WrittenExponent(text))
  }

  /** The reader keeps an exponent of at most nine digits, and replaces a longer one. */
  lemma ExponentsAgree(text: string)
    requires ReadExponent(text).Exponent?
    ensures var e := ReadExponent(text);
            && (!e.long ==> e.exp == ExponentValue(text))
            && (e.long ==> e.exp == if text[0] == '-' then -100001 else 100001)
            && (e.long && text[0] == '-' ==> ExponentValue(text) <= 0)
            && (e.long && text[0] != '-' ==> ExponentValue(text) >= 0)
    ensures Within64(ExponentValue(text)) ==> Atoi(text) == Integer(ExponentValue(text))
  {
    hide ValueOf;
    var signed := text != "" && (text[0] == '+' || text[0] == '-');
    if !signed {
      assert IsDigit(text[0]);
    }
  }

  predicate Within64(n: int) { -0x8000_0000_0000_0000 <= n <= 0x7FFF_FFFF_FFFF_FFFF }

  /** The reader of decimal fields and the reader of DECFLOAT text take a text for the same number as written,
      when its exponent is within 64 bits. */
  lemma ReadersAgree(text: string)
    requires ReadNumber(text).Some? && Within64(WrittenExponent(text))
    ensures var n := Written(text);
            && AllDigits(n.intPart + n.fracPart)
            && ParseText(text) == Value(Finite(n.neg, ValueOf(n.intPart + n.fracPart), n.exp - |n.fracPart|))
  {
    hide ReadNumber, ReadMantissa, ReadExponent, ParseText, ParseUnsigned, Atoi, ParseMantissa, IndexOf, ValueOf, AllDigits;
    hide TrimSpace, Unsigned, ExponentValue;
    var neg, s, e := NumberParts(text);
    var i := IndexOf(s, 'e', 'E');
    MantissaAgrees(neg, s[..i], e, WrittenExponent(text));
    NotSpecial(s, i);
    UnsignedParts(neg, s, i, WrittenExponent(text));
  }

  /** Both readers take the sign off the trimmed text. */
  lemma NumberParts(text: string) returns (neg: bool, s: string, e: Exponent)
    requires ReadNumber(text).Some?
    ensures s == Unsigned(text) && e.Exponent?
    ensures var i := IndexOf(s, 'e', 'E');
            && ReadNumber(text) == ReadMantissa(neg, s[..i], e)
            && e == if i < |s| then ReadExponent(s[i + 1..]) else Exponent(0, false)
    ensures ReadNumber(text).value.neg == neg && ReadNumber(text).value.exp == e.exp
    ensures ReadNumber(text).value.longExp == e.long
    ensures s != "" ==> ParseText(text) == ParseUnsigned(neg, s)
  {
    hide TrimSpace, ReadExponent, ParseUnsigned, IndexOf;
    var t := TrimSpace(text);
    var signed := t != "" && (t[0] == '+' || t[0] == '-');
    neg := signed && t[0] == '-';
    s := if signed then t[1..] else t;
    var i := IndexOf(s, 'e', 'E');
    e := if i < |s| then ReadExponent(s[i + 1..]) else Exponent(0, false);
  }

  lemma UnsignedParts(neg: bool, s: string, i: nat, exp: int)
    requires s != "" && i == IndexOf(s, 'e', 'E') && i <= |s| && Within64(exp)
    requires if i < |s| then ReadExponent(s[i + 1..]).Exponent? && exp == ExponentValue(s[i + 1..]) else exp == 0
    requires ToLower(s) !in {"inf", "infinity", "nan", "snan"}
    ensures ParseUnsigned(neg, s) == ParseMantissa(neg, s[..i], exp)
  {
    hide ReadExponent, Atoi, ParseMantissa, IndexOf, ToLower, ExponentValue;
    if i < |s| {
      ExponentsAgree(s[i + 1..]);
    } else {
      assert s[..i] == s;
    }
  }

  lemma MantissaAgrees(neg: bool, s: string, e: Exponent, exp: int)
    requires e.Exponent? && ReadMantissa(neg, s, e).Some?
    ensures var n := ReadMantissa(neg, s, e).value;
            && AllDigits(n.intPart + n.fracPart)
            && ParseMantissa(neg, s, exp) == Value(Finite(neg, ValueOf(n.intPart + n.fracPart), exp - |n.fracPart|))
    ensures s != "" && (IsDigit(s[0]) || s[0] == '.')
  {
    hide IndexOf, ValueOf, ParseMantissa;
    var n := ReadMantissa(neg, s, e).value;
    MantissaParts(neg, s, exp, n.intPart, n.fracPart);
    var dot := IndexOf(s, '.', '.');
    assert dot > 0 ==> s[0] == n.intPart[0];
    DotStarts(s);
  }

  lemma DotStarts(s: string)
    ensures s != "" && IndexOf(s, '.', '.') == 0 ==> s[0] == '.'
  {}

  lemma NotSpecial(s: string, i: nat)
    requires 0 < i <= |s| && (IsDigit(s[0]) || s[0] == '.')
    ensures ToLower(s) !in {"inf", "infinity", "nan", "snan"}
  {
    assert ToLower(s)[0] == s[0];
    assert "inf"[0] == 'i' && "infinity"[0] == 'i' && "nan"[0] == 'n' && "snan"[0] == 's';
  }

  // ------------------------------------------------------------------ truncating at two exponents

  lemma NextPower(n: nat)
    ensures Pow10(n + 1) == 10 * Pow10(n)
  {}

  /** Truncating one place further right gives at least ten times as much. */
  lemma TruncatedStep(coef: nat, k: int)
    ensures 0 <= 10 * Truncated(coef, k) <= Truncated(coef, k + 1)
  {
    if k >= 0 {
      NextPower(k);
      TimesTen(coef, Pow10(k));
    } else {
      hide Pow10;
      NextPower(0 - k - 1);
      QuotientBelow(coef, Pow10(0 - k));
      TenTimes(coef, Pow10(0 - k - 1), Pow10(0 - k), coef / Pow10(0 - k));
      FirstPower();
    }
  }

  lemma FirstPower()
    ensures Pow10(0) == 1
  {}

  lemma TimesTen(a: nat, b: nat)
    ensures a * (10 * b) == 10 * (a * b) && a * b >= 0
  {}

  lemma QuotientBelow(a: nat, m: nat)
    requires m > 0
    ensures a / m >= 0 && (a / m) * m <= a
  {
    DivisionOf(a, m);
  }

  lemma TenTimes(a: nat, p: nat, tenth: nat, q: nat)
    requires p > 0 && tenth == 10 * p && q * tenth <= a
    ensures 10 * q <= a / p
  {
    Regroup(q, p, tenth);
    AtLeast(a, p, 10 * q);
  }

  lemma Regroup(q: nat, p: nat, tenth: nat)
    requires tenth == 10 * p
    ensures q * tenth == (10 * q) * p
  {}

  lemma AtLeast(a: nat, p: nat, q: nat)
    requires p > 0 && q * p <= a
    ensures q <= a / p
  {
    DivisionOf(a, p);
    var x := a / p;
    assert (x + 1) * p == x * p + p;
    MulOrder(x + 1, q, p);
  }

  lemma {:induction false} TruncatedGrows(coef: nat, k: int, l: int)
    requires k < l
    ensures 0 <= 10 * Truncated(coef, k) <= Truncated(coef, l)
    decreases l - k
  {
    hide Truncated;
    TruncatedStep(coef, k);
    if k + 1 < l {
      TruncatedGrows(coef, k + 1, l);
    }
  }

  /** Nothing is left exactly when the number has no digit before the last place kept. */
  lemma TruncatedZero(coef: nat, k: int)
    requires coef > 0
    ensures Truncated(coef, k) == 0 <==> NumDigits(coef) + k <= 0
  {
    if k >= 0 {
      Positive(coef, Pow10(k));
    } else {
      DigitsBelow(coef, 0 - k);
      DivisionOf(coef, Pow10(0 - k));
      DivSmallIff(coef, Pow10(0 - k));
    }
  }

  lemma Positive(a: nat, b: nat)
    requires a > 0 && b > 0
    ensures a * b > 0
  {}

  lemma DivSmallIff(a: nat, p: nat)
    requires p > 0
    ensures a / p == 0 <==> a < p
  {
    if a >= p {
      AtLeast(a, p, 1);
    }
  }

  function Max(a: int, b: int): int { if a < b then b else a }

  /** Two exponents truncate alike exactly when they are equal or leave nothing. */
  lemma TruncatedAlike(coef: nat, k: int, l: int)
    ensures Truncated(coef, k) == Truncated(coef, l) <==>
            k == l || coef == 0 || NumDigits(coef) + Max(k, l) <= 0
  {
    if coef == 0 {
      NothingLeft(k);
      NothingLeft(l);
    } else {
      TruncatedZero(coef, k);
      TruncatedZero(coef, l);
      hide Truncated, NumDigits;
      if k < l {
        TruncatedGrows(coef, k, l);
      } else if l < k {
        TruncatedGrows(coef, l, k);
      }
    }
  }

  lemma NothingLeft(k: int)
    ensures Truncated(0, k) == 0
  {}

  // ------------------------------------------------------------------ when the field is right

  /** The exponent read is the one written, or it does not matter: the number is zero, or has no digit before the
      last place kept, at either exponent. */
  predicate ExponentKept(text: string, scale: nat)
    requires ReadNumber(text).Some?
  {
    var n := ReadNumber(text).value;
    var written := WrittenExponent(text);
    var digits := TrimZeros(n.intPart + n.fracPart);
    n.exp == written || digits == "" || |digits| + Max(n.exp, written) - |n.fracPart| + scale <= 0
  }

  /** Which texts these are: all whose exponent has at most nine digits, and of the others those that spell
      100001, or denote zero, or have no digit before the last place kept. */
  lemma ExponentRead(text: string)
    requires ReadNumber(text).Some?
    ensures var n := ReadNumber(text).value;
            && (!n.longExp ==> n.exp == WrittenExponent(text))
            && (n.longExp ==> n.exp == 100001 || n.exp == -100001)
            && (n.longExp && n.exp > 0 ==> WrittenExponent(text) >= 0)
            && (n.longExp && n.exp < 0 ==> WrittenExponent(text) <= 0)
  {
    hide ReadNumber, ReadMantissa, ReadExponent, IndexOf, TrimSpace, Unsigned, ExponentValue;
    var neg, s, e := NumberParts(text);
    var i := IndexOf(s, 'e', 'E');
    if i < |s| {
      ExponentsAgree(s[i + 1..]);
    }
  }

  lemma DigitCount(s: string)
    requires AllDigits(s)
    ensures ValueOf(s) == 0 <==> TrimZeros(s) == ""
    ensures TrimZeros(s) != "" ==> NumDigits(ValueOf(s)) == |TrimZeros(s)|
  {
    TrimZerosValue(s);
    var d := TrimZeros(s);
    if d != "" {
      CanonicalDigits(d);
      DecimalDigits.LeadingDigit(d);
    }
  }

  lemma MagnitudesAlike(text: string, scale: nat)
    requires ReadNumber(text).Some?
    ensures var n, w := ReadNumber(text).value, Written(text);
            && AllDigits(n.intPart + n.fracPart) && w.intPart == n.intPart && w.fracPart == n.fracPart && w.neg == n.neg
            && (Magnitude(n, scale) == Magnitude(w, scale) <==> ExponentKept(text, scale))
  {
    hide ReadNumber, WrittenExponent, ValueOf, Truncated, NumDigits, TrimZeros;
    NumberDigits(text);
    var n := ReadNumber(text).value;
    DigitCount(n.intPart + n.fracPart);
    var coef := ValueOf(n.intPart + n.fracPart);
    TruncatedAlike(coef, n.exp - |n.fracPart| + scale, WrittenExponent(text) - |n.fracPart| + scale);
  }

  /** From text to bytes and back to text: whenever a text is encoded for a field, the text decoded denotes the
      number written, truncated toward zero at the scale, exactly when its exponent was kept; it always is when it
      has at most nine digits. */
  lemma TextRoundTripIff(text: string, length: nat, precision: nat, scale: nat, packed: bool)
    requires ReadNumber(text).Some? && scale <= MaxExponent
    requires DecimalTextDigits(text, scale).Digits? && precision > 0
    requires |DecimalTextDigits(text, scale).digits| <= precision && Matching(length, precision, packed)
    ensures AllDigits(Written(text).intPart + Written(text).fracPart)
    ensures var d := DecimalTextDigits(text, scale);
            var bytes := FieldBytes(d.digits, d.negative, length, precision, packed);
            && (DecodesTo(bytes, packed, precision, scale, Written(text).neg, Magnitude(Written(text), scale)) <==>
                ExponentKept(text, scale))
    ensures !ReadNumber(text).value.longExp ==> ExponentKept(text, scale)
  {
    hide *;
    NumberDigits(text);
    DigitsOfText(text, scale);
    ExponentRead(text);
    KeptIfSame(text, scale);
    MagnitudesAlike(text, scale);
    var n := ReadNumber(text).value;
    var d := DigitsOfNumber(n, scale);
    FieldRoundTrip(n, length, precision, scale, packed);
    NotNegative(Written(text), scale);
    OneMagnitude(FieldBytes(d.digits, d.negative, length, precision, packed), packed, precision, scale, n.neg,
                 Magnitude(n, scale), Magnitude(Written(text), scale));
  }

  lemma KeptIfSame(text: string, scale: nat)
    requires ReadNumber(text).Some?
    ensures ReadNumber(text).value.exp == WrittenExponent(text) ==> ExponentKept(text, scale)
  {
    hide ReadNumber, WrittenExponent, TrimZeros;
  }

  lemma NotNegative(n: Number, scale: nat)
    requires AllDigits(n.intPart + n.fracPart)
    ensures Magnitude(n, scale) >= 0
  {
    hide Truncated, ValueOf;
    TruncatedStep(ValueOf(n.intPart + n.fracPart), n.exp - |n.fracPart| + scale);
  }

  lemma OneMagnitude(bytes: Bytes, packed: bool, precision: nat, scale: nat, neg: bool, a: int, b: int)
    requires DecodesTo(bytes, packed, precision, scale, neg, a) && b >= 0
    ensures DecodesTo(bytes, packed, precision, scale, neg, b) <==> a == b
  {
    hide Decoded, FieldText, ParseText;
  }

  lemma DigitsOfText(text: string, scale: nat)
    requires ReadNumber(text).Some?
    ensures DecimalTextDigits(text, scale) == DigitsOfNumber(ReadNumber(text).value, scale)
  {
    hide ReadNumber, DigitsOfNumber;
  }

  /** A positive exponent of more than nine digits is refused as out of range unless the number is zero, even when
      its leading zeros make it a small one. */
  lemma LongExponentRefused(text: string, scale: nat)
    requires ReadNumber(text).Some? && ReadNumber(text).value.longExp && ReadNumber(text).value.exp > 0
    ensures var n := ReadNumber(text).value;
            DecimalTextDigits(text, scale).OutOfRange? <==> !AllZero(n.intPart + n.fracPart)
  {
    ExponentRead(text);
    hide ReadNumber, WrittenExponent, AllZero, IntDigits, FracDigits, ToScale, Assembled;
  }

  lemma ExampleText()
    ensures Unsigned("5E-0000000001") == "5E-0000000001" && IndexOf("5E-0000000001", 'e', 'E') == 1
    ensures ReadNumber("5E-0000000001") == ReadMantissa(false, "5", ReadExponent("-0000000001"))
    ensures WrittenExponent("5E-0000000001") == ExponentValue("-0000000001")
  {
    ExampleExponent();
    hide ReadMantissa, ReadExponent, ExponentValue;
    var text := "5E-0000000001";
    assert text[0] == '5' && text[|text| - 1] == '1';
    TrimNothing(text);
    assert text[1..] == "E-0000000001";
    assert IndexOf("E-0000000001", 'e', 'E') == 0;
    assert text[..1] == "5" && text[2..] == "-0000000001";
  }

  lemma ExampleExponent()
    ensures ReadExponent("-0000000001") == Exponent(-100001, true) && ExponentValue("-0000000001") == -1
  {
    var body := "0000000001";
    assert "-0000000001"[1..] == body && |body| == 10;
    assert body == Zeros(9) + "1";
    LeadingZerosValue(9, "1");
    assert "1"[..0] == "" && ValueOf("1") == 1;
    hide ValueOf;
  }

  lemma ExampleMantissa()
    ensures ReadMantissa(false, "5", Exponent(-100001, true)) == Some(Number(false, "5", "", -100001, true))
  {
    NoDot("5");
    hide IndexOf;
    assert "5"[..1] == "5";
  }

  lemma ManyZeros(digits: string, k: nat)
    requires k > 0 && AllDigits(digits)
    ensures IntDigits(digits, 0 - k) == "" && ToScale(FracDigits(digits, 0 - k), 1) == "0"
  {
    assert (Zeros(k) + digits)[..1] == "0" || |Zeros(k) + digits| <= 1;
    if |Zeros(k) + digits| == 1 {
      assert Zeros(k) + digits == "0";
    }
  }

  lemma ExampleDigits()
    ensures DigitsOfNumber(Number(false, "5", "", -100001, true), 1) == DecimalDigits.Digits("0", false)
  {
    ManyZeros("5", 100000);
    assert "5" + "" == "5" && TrimZeros("") == "";
    assert "5"[0] == '5' && !AllZero("5");
    hide IntDigits, FracDigits, ToScale, AllZero, TrimZeros;
    assert DecimalDigits.Digits("0", false) == Assembled(false, "", "0");
  }

  lemma FiveStays()
    ensures "5" + "" == "5" && TrimZeros("5") == "5"
  {}

  /** A negative one is accepted, with the wrong value: 5E-0000000001 denotes 0.5, and its field at scale 1 holds
      zero. */
  lemma LongExponentExample()
    ensures ReadNumber("5E-0000000001") == Some(Number(false, "5", "", -100001, true))
    ensures WrittenExponent("5E-0000000001") == -1
    ensures DecimalTextDigits("5E-0000000001", 1) == DecimalDigits.Digits("0", false)
    ensures !ExponentKept("5E-0000000001", 1)
  {
    hide ReadNumber, WrittenExponent, DigitsOfNumber, ReadMantissa, ReadExponent, ExponentValue, TrimZeros;
    ExampleText();
    ExampleExponent();
    ExampleMantissa();
    ExampleDigits();
    FiveStays();
  }
}
