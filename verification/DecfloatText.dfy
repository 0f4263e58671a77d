/** DECFLOAT values as text: the parser of parameter text and the formatter of result text. */
module DecfloatText {
  import opened DecimalMath
  import opened DecfloatCodec
  import opened DecfloatWords
  import opened DecfloatRounding
  import Declets

  datatype Parsed = Invalid | Value(d: Decimal)

  // ------------------------------------------------------------------ parsing

  predicate IsSpace(c: char)
  {
    var u := c as int;
    || 0x09 <= u <= 0x0D || u == 0x20 || u == 0x85 || u == 0xA0 || u == 0x1680 || 0x2000 <= u <= 0x200A
    || u == 0x2028 || u == 0x2029 || u == 0x202F || u == 0x205F || u == 0x3000
  }

  function TrimSpace(s: string): string
  {
    if |s| > 0 && IsSpace(s[0]) then TrimSpace(s[1..])
    else if |s| > 0 && IsSpace(s[|s| - 1]) then TrimSpace(s[..|s| - 1])
    else s
  }

  function ToLower(s: string): (t: string)
    ensures |t| == |s|
  {
    seq(|s|, i requires 0 <= i < |s| => if 'A' <= s[i] <= 'Z' then s[i] - 'A' + 'a' else s[i])
  }

  /** The first position of a or b in s, or |s|. */
  function IndexOf(s: string, a: char, b: char): (i: nat)
    ensures i <= |s|
    ensures i < |s| ==> s[i] == a || s[i] == b
    ensures forall j :: 0 <= j < i ==> s[j] != a && s[j] != b
  {
    if s == "" || s[0] == a || s[0] == b then 0 else 1 + IndexOf(s[1..], a, b)
  }

  datatype Integer = NotInteger | Integer(n: int)

  /** An optional sign and at least one digit, within 64 bits. */
  function Atoi(s: string): Integer
  {
    var body := if |s| > 0 && (s[0] == '+' || s[0] == '-') then s[1..] else s;
    if body == "" || !AllDigits(body) then NotInteger
    else
      var n: int := if s[0] == '-' then 0 - ValueOf(body) else ValueOf(body);
      if -0x8000_0000_0000_0000 <= n <= 0x7FFF_FFFF_FFFF_FFFF then Integer(n) else NotInteger
  }

  function ParseMantissa(neg: bool, mant: string, exp10: int): Parsed
  {
    var dot := IndexOf(mant, '.', '.');
    ParseParts(neg, mant[..dot], if dot < |mant| then mant[dot + 1..] else "", exp10)
  }

  function ParseParts(neg: bool, intPart: string, fracPart: string, exp10: int): Parsed
  {
    if intPart + fracPart == "" || !AllDigits(intPart + fracPart) then Invalid
    else Value(Finite(neg, ValueOf(TrimZeros(intPart + fracPart)), exp10 - |fracPart|))
  }

  function ParseUnsigned(neg: bool, s: string): Parsed
  {
    var lower := ToLower(s);
    if lower == "inf" || lower == "infinity" then Value(Infinity(neg))
    else if lower == "nan" then Value(NaN(neg, false))
    else if lower == "snan" then Value(NaN(neg, true))
    else
      var e := IndexOf(s, 'e', 'E');
      if e == |s| then ParseMantissa(neg, s, 0)
      else
        match Atoi(s[e + 1..])
        case NotInteger => Invalid
        case Integer(n) => ParseMantissa(neg, s[..e], n)
  }

  function ParseText(value: string): Parsed
  {
    var s := TrimSpace(value);
    if s == "" then Invalid
    else if s[0] == '+' || s[0] == '-' then ParseUnsigned(s[0] == '-', s[1..])
    else ParseUnsigned(false, s)
  }

  // ------------------------------------------------------------------ formatting

  /** The plain decimal text of digits * 10^exponent, without sign. */
  function Plain(digits: string, exponent: int): string
  {
    var n, scale := |digits|, -exponent;
    if scale <= 0 then digits + Zeros(-scale)
    else if scale >= n then "0." + Zeros(scale - n) + digits
    else digits[..n - scale] + "." + digits[n - scale..]
  }

  function FormatStr(neg: bool, digits: string, exponent: int): string
  {
    var result := Plain(digits, exponent);
    if neg && result != "0" then "-" + result else result
  }

  function Render(d: Decimal): string
  {
    match d
    case NaN(neg, signaling) => (if neg then "-" else "") + (if signaling then "SNaN" else "NaN")
    case Infinity(neg) => (if neg then "-" else "") + "Infinity"
    case Finite(neg, coef, exp) => FormatStr(neg, DigitsOf(coef), exp)
  }

  // ------------------------------------------------------------------ round trip

  predicate NumberText(s: string)
  {
    |s| > 0 && IsDigit(s[0]) && forall i :: 0 <= i < |s| ==> IsDigit(s[i]) || s[i] == '.'
  }

  lemma TrimNothing(s: string)
    requires |s| > 0 && !IsSpace(s[0]) && !IsSpace(s[|s| - 1])
    ensures TrimSpace(s) == s
  {}

  lemma NoExponent(s: string)
    requires NumberText(s)
    ensures IndexOf(s, 'e', 'E') == |s|
  {}

  lemma NotAName(s: string)
    requires NumberText(s)
    ensures ToLower(s) !in {"inf", "infinity", "nan", "snan"}
  {
    assert ToLower(s)[0] == s[0];
    assert "inf"[0] == 'i' && "infinity"[0] == 'i' && "nan"[0] == 'n' && "snan"[0] == 's';
  }

  lemma ParseNumber(neg: bool, s: string)
    requires NumberText(s)
    ensures ParseText(if neg then "-" + s else s) == ParseMantissa(neg, s, 0)
  {
    var text := if neg then "-" + s else s;
    assert neg ==> text[1..] == s;
    TrimNothing(text);
    NoExponent(s);
    NotAName(s);
  }

  lemma DotAt(a: string, b: string)
    requires AllDigits(a)
    ensures IndexOf(a + "." + b, '.', '.') == |a|
  {
    var s := a + "." + b;
    var i := IndexOf(s, '.', '.');
    assert s[|a|] == '.';
    assert forall j :: 0 <= j < |a| ==> s[j] == a[j];
  }

  lemma MantissaParts(neg: bool, mant: string, exp10: int, i: string, f: string)
    requires var dot := IndexOf(mant, '.', '.');
             mant[..dot] == i && f == if dot < |mant| then mant[dot + 1..] else ""
    requires |i + f| > 0 && AllDigits(i + f)
    ensures ParseMantissa(neg, mant, exp10) == Value(Finite(neg, ValueOf(i + f), exp10 - |f|))
  {
    hide ValueOf, TrimZeros, IndexOf, AllDigits, ParseParts;
    PartsValue(neg, i, f, exp10);
  }

  lemma PartsValue(neg: bool, i: string, f: string, exp10: int)
    requires |i + f| > 0 && AllDigits(i + f)
    ensures ParseParts(neg, i, f, exp10) == Value(Finite(neg, ValueOf(i + f), exp10 - |f|))
  {
    hide ValueOf, TrimZeros, AllDigits;
    TrimZerosValue(i + f);
  }

  lemma ParsePointed(neg: bool, a: string, b: string)
    requires AllDigits(a) && AllDigits(b) && |a| > 0
    ensures AllDigits(a + b)
    ensures ParseMantissa(neg, a + "." + b, 0) == Value(Finite(neg, ValueOf(a + b), -|b|))
  {
    hide *;
    var s := a + "." + b;
    DotAt(a, b);
    ValueOfConcat(a, b);
    assert s[..|a|] == a && s[|a| + 1..] == b;
    MantissaParts(neg, s, 0, a, b);
  }

  lemma ParsePlain(neg: bool, a: string)
    requires AllDigits(a) && |a| > 0
    ensures ParseMantissa(neg, a, 0) == Value(Finite(neg, ValueOf(a), 0))
  {
    hide ValueOf, ParseMantissa;
    NoDot(a);
    hide IndexOf;
    assert a[..|a|] == a && a + "" == a;
    MantissaParts(neg, a, 0, a, "");
  }

  lemma NoDot(a: string)
    requires AllDigits(a)
    ensures IndexOf(a, '.', '.') == |a|
  {}

  /** Reading formatted digits back gives their value at the same exponent, or multiplied out when the
      exponent is positive. */
  lemma ParseFormatted(neg: bool, digits: string, exponent: int)
    requires AllDigits(digits) && |digits| > 0
    ensures var minus := neg && Plain(digits, exponent) != "0";
            ParseText(FormatStr(neg, digits, exponent)) ==
            Value(if exponent >= 0 then Finite(minus, ValueOf(digits) * Pow10(exponent), 0)
                  else Finite(minus, ValueOf(digits), exponent))
  {
    var plain := Plain(digits, exponent);
    var minus := neg && plain != "0";
    var n := |digits|;
    hide ParseText, ParseMantissa, ValueOf, Pow10;
    if exponent >= 0 {
      ParseNumber(minus, plain);
      ParsePlain(minus, plain);
      ValueOfConcat(digits, Zeros(exponent));
      ValueOfZeros(exponent);
    } else if -exponent >= n {
      var b := Zeros(-exponent - n) + digits;
      assert plain == "0" + "." + b;
      ParseNumber(minus, plain);
      ParsePointed(minus, "0", b);
      LeadingZero(b);
      ValueOfConcat(Zeros(-exponent - n), digits);
      ValueOfZeros(-exponent - n);
    } else {
      var a, b := digits[..n + exponent], digits[n + exponent..];
      assert plain == a + "." + b && a + b == digits;
      ParseNumber(minus, plain);
      ParsePointed(minus, a, b);
    }
  }

  /** The same number: equal kinds, and for finite values equal magnitudes with equal signs unless zero. */
  predicate SameValue(a: Decimal, b: Decimal)
  {
    if a.Finite? && b.Finite? then
      && (if a.exp >= b.exp then a.coef * Pow10(a.exp - b.exp) == b.coef
          else a.coef == b.coef * Pow10(b.exp - a.exp))
      && (a.coef > 0 ==> a.neg == b.neg)
    else a == b
  }

  /** Parsing the text of any value gives the same value. */
  lemma ParseRendered(d: Decimal)
    ensures ParseText(Render(d)).Value? && SameValue(d, ParseText(Render(d)).d)
  {
    hide ParseText, Render;
    match d
    case NaN(neg, signaling) => ParseNaN(neg, signaling);
    case Infinity(neg) => ParseInfinity(neg);
    case Finite(neg, coef, exp) => ParseFinite(neg, coef, exp);
  }

  lemma ParseNaN(neg: bool, signaling: bool)
    ensures ParseText(Render(NaN(neg, signaling))) == Value(NaN(neg, signaling))
  {
    hide ParseText, IndexOf, ParseMantissa, Atoi;
    ParseSpecial(neg, if signaling then "SNaN" else "NaN");
    assert ToLower("SNaN") == "snan" && ToLower("NaN") == "nan";
  }

  lemma ParseInfinity(neg: bool)
    ensures ParseText(Render(Infinity(neg))) == Value(Infinity(neg))
  {
    hide ParseText, IndexOf, ParseMantissa, Atoi;
    ParseSpecial(neg, "Infinity");
    assert ToLower("Infinity") == "infinity";
  }

  lemma ParseFinite(neg: bool, coef: nat, exp: int)
    ensures var p := ParseText(Render(Finite(neg, coef, exp)));
            p.Value? && SameValue(Finite(neg, coef, exp), p.d)
  {
    hide ParseText, ValueOf, DigitsOf, Plain, FormatStr;
    ParseFormatted(neg, DigitsOf(coef), exp);
    assert Pow10(0) == 1;
    if coef > 0 {
      NotZeroText(DigitsOf(coef), exp);
    }
  }

  lemma ParseSpecial(neg: bool, s: string)
    requires s in {"SNaN", "NaN", "Infinity"}
    ensures ParseText((if neg then "-" else "") + s) == ParseUnsigned(neg, s)
  {
    var text := (if neg then "-" else "") + s;
    assert neg ==> text[1..] == s;
    assert !neg ==> text == s;
    TrimNothing(text);
  }

  lemma NotZeroText(digits: string, exp: int)
    requires AllDigits(digits) && |digits| > 0 && ValueOf(digits) > 0
    ensures Plain(digits, exp) != "0"
  {
    EmptyValue();
    hide ValueOf;
    assert |Plain(digits, exp)| == 1 ==> Plain(digits, exp) == digits + Zeros(0) == digits;
  }

  // ------------------------------------------------------------------ the digits of a DECFLOAT(34)

  /** A digit string without superfluous zeros is the text of its value. */
  lemma {:induction false} CanonicalDigits(s: string)
    requires AllDigits(s) && |s| > 0 && (|s| == 1 || s[0] != '0')
    ensures s == DigitsOf(ValueOf(s))
  {
    var n := |s| - 1;
    if n == 0 {
      OneDigit(s);
      assert s == [s[0]];
    } else {
      hide ValueOf, DigitsOf;
      CanonicalDigits(s[..n]);
      var v := ValueOf(s[..n]);
      NonZeroValue(s[..n]);
      OneMore(s, n);
      assert s[..n + 1] == s;
      DigitsStep(v, CharDigit(s[n]));
      assert s == s[..n] + [s[n]];
    }
  }

  lemma DigitsStep(v: nat, d: nat)
    requires v > 0 && d < 10
    ensures DigitsOf(10 * v + d) == DigitsOf(v) + [DigitChar(d)]
  {
    assert (10 * v + d) / 10 == v && (10 * v + d) % 10 == d;
  }

  lemma {:induction false} NonZeroValue(s: string)
    requires AllDigits(s) && |s| > 0 && s[0] != '0'
    ensures ValueOf(s) > 0
  {
    if |s| > 1 {
      NonZeroValue(s[..|s| - 1]);
    } else {
      OneDigit(s);
    }
  }

  /** The driver joins the four groups of digits of a DECFLOAT(34) as text; that is the text of the number. */
  lemma JoinedGroups(hi: nat, a: nat, b: nat, c: nat)
    requires a < BILLION && b < BILLION && c < BILLION
    ensures BILLION == Pow10(9)
    ensures var trimmed := TrimZeros(DigitsOf(hi) + PadTo(a, 9) + PadTo(b, 9) + PadTo(c, 9));
            (if trimmed == "" then "0" else trimmed) ==
            DigitsOf(((hi * BILLION + a) * BILLION + b) * BILLION + c)
  {
    assert Pow10(3) == 1000 && Pow10(6) == 1_000_000 && Pow10(9) == BILLION by {
      assert Pow10(1) == 10 && Pow10(2) == 100 && Pow10(4) == 10000 && Pow10(5) == 100000;
      assert Pow10(7) == 10_000_000 && Pow10(8) == 100_000_000;
    }
    hide Pow10, ValueOf, DigitsOf, PadTo;
    var s1 := DigitsOf(hi) + PadTo(a, 9);
    var s2 := s1 + PadTo(b, 9);
    var s3 := s2 + PadTo(c, 9);
    ValueOfConcat(DigitsOf(hi), PadTo(a, 9));
    ValueOfConcat(s1, PadTo(b, 9));
    ValueOfConcat(s2, PadTo(c, 9));
    TrimZerosValue(s3);
    var t := TrimZeros(s3);
    if t == "" {
      EmptyValue();
    } else {
      CanonicalDigits(t);
    }
  }

  function JoinedText(g: seq<nat>): string
    requires AreGroups(g)
  {
    PowNine();
    var trimmed := TrimZeros(DigitsOf(g[0]) + PadTo(g[1], 9) + PadTo(g[2], 9) + PadTo(g[3], 9));
    if trimmed == "" then "0" else trimmed
  }

  lemma PowNine()
    ensures Pow10(9) == BILLION
  {
    JoinedGroups(0, 0, 0, 0);
  }

  lemma JoinedDigits(g: seq<nat>)
    requires AreGroups(g)
    ensures JoinedText(g) == DigitsOf(Joined(g))
  {
    PowNine();
    JoinedGroups(g[0], g[1], g[2], g[3]);
    hide DigitsOf, PadTo, TrimZeros, Pow10;
  }

  /** The text of a DECFLOAT(34), its digits joined from four groups. */
  method DecodeDecfloat34Text(hi: nat, lo: nat) returns (text: string)
    requires hi < P64 && lo < P64
    ensures text == Render(Read(Words(hi, lo), DECFLOAT34))
  {
    hide Read, DigitsOf, JoinedText, FormatStr, Joined;
    var d, g := DecodeDecfloat34(hi, lo);
    match d {
      case NaN(neg, signaling) => text := (if neg then "-" else "") + (if signaling then "SNaN" else "NaN");
      case Infinity(neg) => text := (if neg then "-" else "") + "Infinity";
      case Finite(neg, _, exp) =>
        JoinedDigits(g);
        text := FormatStr(neg, JoinedText(g), exp);
    }
  }

  lemma EmptyValue()
    ensures ValueOf("") == 0 && DigitsOf(0) == "0" && ValueOf("0") == 0
  {
    assert "0"[..0] == "";
  }

  // ------------------------------------------------------------------ text to words

  /** The value the format holds for d, if it has one. */
  function Rounded(d: Decimal, f: Format): Parsed
  {
    if d.Finite? then
      match Fit(d.coef, d.exp, f)
      case OutOfRange => Invalid
      case Fits(c, e) => Value(Finite(d.neg, c, e))
    else Value(d)
  }

  /** Encodes parameter text. It fails exactly on text that is no number and on values out of range, and the
      words read back, and print and parse, as the rounded value. */
  method EncodeDecfloat(value: string, f: Format, table: array<int>) returns (ok: bool, w: Words)
    requires Supported(f)
    requires table.Length == 1000 && forall v :: 0 <= v < 1000 ==> table[v] == Declets.Declet(v)
    ensures ok <==> ParseText(value).Value? && Rounded(ParseText(value).d, f).Value?
    ensures ok ==> Read(w, f) == Rounded(ParseText(value).d, f).d
    ensures ok ==> var back := ParseText(Render(Read(w, f)));
                   back.Value? && SameValue(Rounded(ParseText(value).d, f).d, back.d)
  {
    hide ParseText, Render, SameValue, Declets.Declet, Fit, Read;
    var p := ParseText(value);
    if p.Invalid? {
      return false, Words(0, 0);
    }
    var sign := if p.d.neg then P63 else 0;
    ok := true;
    match p.d {
      case Infinity(neg) => w := Words(sign + 0x1e * P58, 0);
      case NaN(neg, false) => w := Words(sign + 0x1f * P58, 0);
      case NaN(neg, true) => w := Words(sign + 0x1f * P58 + 0x0200_0000_0000_0000, 0);
      case Finite(neg, coef, exp) => ok, w := EncodeFinite(neg, coef, exp, f, table);
    }
    if !p.d.Finite? {
      ReadSpecial(p.d, f);
    }
    if ok {
      ParseRendered(Read(w, f));
    }
  }

  lemma ReadSpecial(d: Decimal, f: Format)
    requires !d.Finite?
    ensures var sign := if d.neg then P63 else 0;
            Read(Words(sign + (if d.Infinity? then 0x1e * P58
                               else if d.signaling then 0x1f * P58 + 0x0200_0000_0000_0000 else 0x1f * P58), 0), f) == d
  {
    hide Coefficient, Continuation, Exponent, ExpMSD, CoefMSD;
    var s, x := if d.neg then 1 else 0, if d.Infinity? then 0x1e else 0x1f;
    var t := if d.NaN? && d.signaling then 1 else 0;
    var hi := s * P63 + x * P58 + t * 0x0200_0000_0000_0000;
    Field(hi, P63, s, x * P58 + t * 0x0200_0000_0000_0000);
    Field(hi, P58, s * 32 + x, t * 0x0200_0000_0000_0000);
    Field(hi, 0x0200_0000_0000_0000, (s * 32 + x) * 2 + t, 0);
  }
}
