/** Decimal text made into the digits of a packed or zoned field: truncated toward zero at the scale of the field,
    never rounded. */
module DecimalDigits {

  import opened Wrappers
  import opened DecimalMath
  import opened DecfloatCodec
  import opened DecfloatText

  const MaxExponent: nat := 100000

  /** A number as written: sign, digits before and after the point, exponent. An exponent of more than nine digits
      is not read; it stands for one just beyond the limit. */
  datatype Number = Number(neg: bool, intPart: string, fracPart: string, exp: int, longExp: bool)

  datatype Exponent = BadExponent | Exponent(exp: int, long: bool)

  function ReadExponent(text: string): Exponent
  {
    var signed := text != "" && (text[0] == '+' || text[0] == '-');
    var sign := if signed && text[0] == '-' then -1 else 1;
    var body := if signed then text[1..] else text;
    if body == "" || !AllDigits(body) then BadExponent
    else if |body| > 9 then Exponent(sign * (MaxExponent + 1), true)
    else Exponent(sign * ValueOf(body), false)
  }

  function ReadMantissa(neg: bool, s: string, e: Exponent): Option<Number>
    requires e.Exponent?
  {
    var dot := IndexOf(s, '.', '.');
    var intPart := s[..dot];
    var fracPart := if dot < |s| then s[dot + 1..] else "";
    if (intPart == "" && fracPart == "") || !AllDigits(intPart) || !AllDigits(fracPart) then None
    else Some(Number(neg, intPart, fracPart, e.exp, e.long))
  }

  function ReadNumber(text: string): (r: Option<Number>)
    ensures r.Some? ==> AllDigits(r.value.intPart) && AllDigits(r.value.fracPart)
  {
    var t := TrimSpace(text);
    var signed := t != "" && (t[0] == '+' || t[0] == '-');
    var neg := signed && t[0] == '-';
    var s := if signed then t[1..] else t;
    var i := IndexOf(s, 'e', 'E');
    var e := if i < |s| then ReadExponent(s[i + 1..]) else Exponent(0, false);
    if e.BadExponent? then None else ReadMantissa(neg, s[..i], e)
  }

  predicate AllZero(s: string) { forall i :: 0 <= i < |s| ==> s[i] == '0' }

  /** The digits before the point, when the point stands after the first `point` digits. */
  function IntDigits(digits: string, point: int): string
  {
    if point <= 0 then ""
    else if point >= |digits| then digits + Zeros(point - |digits|)
    else digits[..point]
  }

  function FracDigits(digits: string, point: int): string
  {
    if point <= 0 then Zeros(-point) + digits
    else if point >= |digits| then ""
    else digits[point..]
  }

  /** Exactly `scale` digits after the point. */
  function ToScale(frac: string, scale: nat): (r: string)
    ensures |r| == scale
  {
    if |frac| > scale then frac[..scale] else frac + Zeros(scale - |frac|)
  }

  datatype Digits = NotANumber | OutOfRange | Digits(digits: string, negative: bool)

  function Assembled(neg: bool, intDigits: string, frac: string): Digits
  {
    var integerPart := TrimZeros(intDigits);
    var negative := neg && !AllZero(integerPart + frac);
    if integerPart != "" then Digits(integerPart + frac, negative)
    else Digits(if frac == "" then "0" else frac, negative)
  }

  function DigitsOfNumber(n: Number, scale: nat): Digits
  {
    var all := n.intPart + n.fracPart;
    var point := |n.intPart| + n.exp;
    var zero := AllZero(all) || point < 0 - MaxExponent;
    if !zero && point > MaxExponent then OutOfRange
    else
      var digits, p := if zero then "" else all, if zero then 0 else point;
      Assembled(n.neg, IntDigits(digits, p), ToScale(FracDigits(digits, p), scale))
  }

  function DecimalTextDigits(text: string, scale: int): Digits
  {
    var n := ReadNumber(text);
    if n.None? then NotANumber else DigitsOfNumber(n.value, if scale < 0 then 0 else scale)
  }

  // ------------------------------------------------------------------ what the digits denote

  /** coef * 10^k, without what is below one. */
  function Truncated(coef: int, k: int): int
  {
    if k >= 0 then coef * Pow10(k) else coef / Pow10(0 - k)
  }

  /** The magnitude of a number in units of the last place kept. */
  function Magnitude(n: Number, scale: nat): int
    requires AllDigits(n.intPart + n.fracPart)
  {
    Truncated(ValueOf(n.intPart + n.fracPart), n.exp - |n.fracPart| + scale)
  }

  lemma {:induction false} ZeroValue(s: string)
    requires AllDigits(s)
    ensures AllZero(s) <==> ValueOf(s) == 0
  {
    if s != "" {
      var front := s[..|s| - 1];
      ZeroValue(front);
      assert AllZero(s) <==> AllZero(front) && s[|s| - 1] == '0' by {
        if AllZero(front) && s[|s| - 1] == '0' {
          forall i | 0 <= i < |s| ensures s[i] == '0' {
            assert i < |front| ==> s[i] == front[i];
          }
        }
      }
    }
  }

  /** Cutting digits off is dividing. */
  lemma CutValue(s: string, k: nat)
    requires AllDigits(s) && k <= |s|
    ensures ValueOf(s[..|s| - k]) == ValueOf(s) / Pow10(k)
  {
    hide ValueOf, Pow10;
    var front, back := s[..|s| - k], s[|s| - k..];
    assert s == front + back;
    ValueOfConcat(front, back);
    ValueBound(back);
    Field(ValueOf(s), Pow10(k), ValueOf(front), ValueOf(back));
  }

  lemma PaddedValue(s: string, k: nat)
    requires AllDigits(s)
    ensures AllDigits(s + Zeros(k)) && ValueOf(s + Zeros(k)) == ValueOf(s) * Pow10(k)
  {
    ValueOfConcat(s, Zeros(k));
    ValueOfZeros(k);
  }

  lemma LeadingZerosValue(k: nat, s: string)
    requires AllDigits(s)
    ensures AllDigits(Zeros(k) + s) && ValueOf(Zeros(k) + s) == ValueOf(s)
  {
    ValueOfConcat(Zeros(k), s);
    ValueOfZeros(k);
  }

  /** Where the point stands does not change the digits, up to zeros. */
  lemma AlignedValue(digits: string, point: int)
    requires AllDigits(digits)
    ensures var i, f := IntDigits(digits, point), FracDigits(digits, point);
            && AllDigits(i) && AllDigits(f) && AllDigits(i + f)
            && |f| == (if point >= |digits| then 0 else |digits| - point)
            && ValueOf(i + f) == ValueOf(digits) * Pow10(if point > |digits| then point - |digits| else 0)
  {
    hide ValueOf;
    var i, f := IntDigits(digits, point), FracDigits(digits, point);
    assert Pow10(0) == 1;
    hide Pow10;
    if point <= 0 {
      LeadingZerosValue(-point, digits);
      assert i + f == f;
      if point == 0 {
        assert Zeros(0) + digits == digits;
      }
    } else if point >= |digits| {
      PaddedValue(digits, point - |digits|);
      assert i + f == i;
    } else {
      assert i + f == digits;
    }
  }

  /** Fitting the digits after the point to the scale truncates. */
  lemma FittedValue(i: string, f: string, scale: nat)
    requires AllDigits(i) && AllDigits(f) && AllDigits(i + f)
    ensures AllDigits(ToScale(f, scale)) && AllDigits(i + ToScale(f, scale))
    ensures ValueOf(i + ToScale(f, scale)) == Truncated(ValueOf(i + f), scale - |f|)
  {
    hide ValueOf;
    assert Pow10(0) == 1;
    hide Pow10;
    if |f| > scale {
      var cut := |f| - scale;
      assert i + f[..scale] == (i + f)[..|i + f| - cut];
      CutValue(i + f, cut);
    } else {
      PaddedValue(i + f, scale - |f|);
      assert i + (f + Zeros(scale - |f|)) == (i + f) + Zeros(scale - |f|);
      assert AllDigits(f + Zeros(scale - |f|));
    }
  }

  /** Truncating a multiple of a power of ten. */
  lemma TruncatedShift(coef: nat, a: nat, k: nat)
    ensures Truncated(coef * Pow10(a), k) == Truncated(coef, a + k)
  {
    Pow10Add(a, k);
    MulAssoc(coef, Pow10(a), Pow10(k));
  }

  lemma MulAssoc(a: nat, b: nat, c: nat)
    ensures a * b * c == a * (b * c)
  {}

  lemma TrimmedValue(i: string, f: string)
    requires AllDigits(i) && AllDigits(f)
    ensures AllDigits(TrimZeros(i) + f) && ValueOf(TrimZeros(i) + f) == ValueOf(i + f)
  {
    hide ValueOf, Pow10;
    TrimZerosValue(i);
    ValueOfConcat(i, f);
    ValueOfConcat(TrimZeros(i), f);
  }

  /** Assembled digits keep their value; a zero is not negative. */
  lemma AssembledValue(neg: bool, i: string, f: string)
    requires AllDigits(i) && AllDigits(f)
    ensures var d := Assembled(neg, i, f);
            && d.Digits? && d.digits != "" && AllDigits(d.digits) && ValueOf(d.digits) == ValueOf(i + f)
            && (d.negative <==> neg && ValueOf(i + f) != 0)
  {
    hide ValueOf, TrimZeros, AllZero;
    var integerPart := TrimZeros(i);
    TrimmedValue(i, f);
    ZeroValue(integerPart + f);
    SmallValues();
    if integerPart == "" {
      assert integerPart + f == f;
    }
  }

  lemma SmallValues()
    ensures ValueOf("") == 0 && ValueOf("0") == 0
  {
    LeadingZero("");
    assert "0" + "" == "0";
  }

  /** The digits for the field denote the number truncated toward zero at the scale, and zero is never negative. */
  lemma DigitsDenote(n: Number, scale: nat)
    requires AllDigits(n.intPart) && AllDigits(n.fracPart) && scale <= MaxExponent
    requires !DigitsOfNumber(n, scale).OutOfRange?
    ensures AllDigits(n.intPart + n.fracPart)
    ensures var d := DigitsOfNumber(n, scale);
            && d.Digits? && d.digits != "" && AllDigits(d.digits) && ValueOf(d.digits) == Magnitude(n, scale)
            && (d.negative <==> n.neg && Magnitude(n, scale) != 0)
  {
    hide ValueOf, Pow10, Truncated, Assembled;
    var all := n.intPart + n.fracPart;
    var point := |n.intPart| + n.exp;
    var zero := AllZero(all) || point < 0 - MaxExponent;
    var digits, p := if zero then "" else all, if zero then 0 else point;
    var i, f := IntDigits(digits, p), FracDigits(digits, p);
    AlignedValue(digits, p);
    FittedValue(i, f, scale);
    AssembledValue(n.neg, i, ToScale(f, scale));
    if zero {
      ZeroMagnitude(n, scale);
      EmptyValue(scale - |f|);
    } else {
      AlignedMagnitude(n, scale, |f|);
    }
  }

  lemma EmptyValue(k: int)
    ensures ValueOf("") * Pow10(0) == 0 && Truncated(0, k) == 0
  {}

  lemma ZeroMagnitude(n: Number, scale: nat)
    requires AllDigits(n.intPart + n.fracPart) && scale <= MaxExponent
    requires AllZero(n.intPart + n.fracPart) || |n.intPart| + n.exp < 0 - MaxExponent
    ensures Magnitude(n, scale) == 0
  {
    var all := n.intPart + n.fracPart;
    var k := n.exp - |n.fracPart| + scale;
    ZeroValue(all);
    hide ValueOf;
    if !AllZero(all) {
      ValueBound(all);
      Pow10Monotone(|all|, 0 - k);
      DivSmall(ValueOf(all), Pow10(0 - k));
    }
  }

  lemma DivSmall(a: nat, b: nat)
    requires a < b
    ensures a / b == 0
  {}

  lemma AlignedMagnitude(n: Number, scale: nat, fracLength: nat)
    requires AllDigits(n.intPart + n.fracPart)
    requires var digits, point := n.intPart + n.fracPart, |n.intPart| + n.exp;
             fracLength == if point >= |digits| then 0 else |digits| - point
    ensures var digits, point := n.intPart + n.fracPart, |n.intPart| + n.exp;
            Magnitude(n, scale) ==
            Truncated(ValueOf(digits) * Pow10(if point > |digits| then point - |digits| else 0), scale - fracLength)
  {
    hide ValueOf;
    var digits, point := n.intPart + n.fracPart, |n.intPart| + n.exp;
    assert Pow10(0) == 1;
    if point > |digits| {
      TruncatedShift(ValueOf(digits), point - |digits|, scale);
    }
  }

  /** For a field whose precision covers its scale, the digits are too many exactly when the value is too large. */
  lemma DigitsFit(n: Number, scale: nat, precision: nat)
    requires AllDigits(n.intPart) && AllDigits(n.fracPart) && scale <= MaxExponent
    requires !DigitsOfNumber(n, scale).OutOfRange? && precision > 0 && precision >= scale
    ensures DigitsOfNumber(n, scale).Digits? && AllDigits(DigitsOfNumber(n, scale).digits)
    ensures var d := DigitsOfNumber(n, scale).digits;
            |d| <= precision <==> ValueOf(d) < Pow10(precision)
  {
    hide DigitsOfNumber, Magnitude, ValueOf, Pow10;
    DigitsDenote(n, scale);
    AssembledShape(n, scale);
    LengthFits(DigitsOfNumber(n, scale).digits, scale, precision);
  }

  lemma LengthFits(d: string, scale: nat, precision: nat)
    requires d != "" && AllDigits(d) && (d[0] != '0' || |d| == scale || |d| == 1) && precision > 0 && precision >= scale
    ensures |d| <= precision <==> ValueOf(d) < Pow10(precision)
  {
    hide ValueOf, Pow10;
    if |d| <= precision {
      ValueBound(d);
      Pow10Monotone(|d|, precision);
    } else {
      LeadingDigit(d);
      Pow10Monotone(precision, |d| - 1);
    }
  }

  /** No leading zeros, unless the digits are just those after the point, or a single zero. */
  lemma AssembledShape(n: Number, scale: nat)
    requires DigitsOfNumber(n, scale).Digits?
    ensures var d := DigitsOfNumber(n, scale).digits;
            d != "" && (d[0] != '0' || |d| == scale || |d| == 1)
  {
    hide IntDigits, FracDigits, AllZero;
  }

  lemma {:induction false} LeadingDigit(s: string)
    requires s != "" && AllDigits(s) && s[0] != '0'
    ensures Pow10(|s| - 1) <= ValueOf(s)
  {
    if |s| > 1 {
      LeadingDigit(s[..|s| - 1]);
    } else {
      assert s[..0] == "";
    }
  }
}
