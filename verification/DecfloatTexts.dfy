/** The texts a DECFLOAT is read from and the texts it is written as, by their shape. */
module DecfloatTexts {

  import opened DecimalMath
  import opened DecfloatCodec
  import opened DecfloatText

  // ------------------------------------------------------------------ the shape of a number

  /** A number in pieces: sign, digits, a point and digits, a mark and an exponent. */
  datatype Shape = Shape(sign: string, whole: string, point: string, frac: string, mark: string, esign: string,
                         edigits: string)

  predicate Spaces(s: string) { forall i :: 0 <= i < |s| ==> IsSpace(s[i]) }

  predicate Inked(s: string) { forall i :: 0 <= i < |s| ==> !IsSpace(s[i]) }

  predicate ShapeOk(p: Shape)
  {
    && p.sign in {"", "+", "-"} && p.esign in {"", "+", "-"}
    && AllDigits(p.whole) && AllDigits(p.frac) && AllDigits(p.edigits)
    && |p.whole| + |p.frac| > 0
    && (p.point == "." || (p.point == "" && p.frac == ""))
    && (if p.mark == "" then p.esign == "" && p.edigits == "" else p.mark in {"e", "E"} && p.edigits != "")
  }

  function MantissaOf(p: Shape): string { p.whole + p.point + p.frac }

  function ExponentText(p: Shape): string { p.esign + p.edigits }

  function TextOf(p: Shape): string { p.sign + (MantissaOf(p) + (p.mark + ExponentText(p))) }

  function ExponentOf(p: Shape): int
    requires ShapeOk(p)
  {
    if p.esign == "-" then 0 - ValueOf(p.edigits) else ValueOf(p.edigits)
  }

  lemma {:induction false} TrimBoth(lead: string, s: string, trail: string)
    requires Spaces(lead) && Spaces(trail) && Inked(s)
    ensures TrimSpace(lead + s + trail) == s
    decreases |lead| + |trail|
  {
    var t := lead + s + trail;
    assert lead == "" && s != "" ==> t[0] == s[0];
    if lead != "" {
      assert t[1..] == lead[1..] + s + trail;
      TrimBoth(lead[1..], s, trail);
    } else if t != "" && IsSpace(t[0]) {
      assert t == trail && t[1..] == lead + s + trail[1..];
      TrimBoth(lead, s, trail[1..]);
    } else if trail != "" {
      assert t[|t| - 1] == trail[|trail| - 1] && t[..|t| - 1] == lead + s + trail[..|trail| - 1];
      TrimBoth(lead, s, trail[..|trail| - 1]);
    } else {
      assert t == s;
    }
  }

  lemma {:induction false} Trimmed(t: string) returns (lead: string, trail: string)
    ensures Spaces(lead) && Spaces(trail) && t == lead + TrimSpace(t) + trail
    decreases |t|
  {
    if |t| > 0 && IsSpace(t[0]) {
      lead, trail := Trimmed(t[1..]);
      lead := [t[0]] + lead;
      assert t == [t[0]] + t[1..];
    } else if |t| > 0 && IsSpace(t[|t| - 1]) {
      lead, trail := Trimmed(t[..|t| - 1]);
      trail := trail + [t[|t| - 1]];
      assert t == t[..|t| - 1] + [t[|t| - 1]];
    } else {
      lead, trail := "", "";
    }
  }

  lemma DigitsInked(s: string)
    requires AllDigits(s)
    ensures Inked(s)
  {
    forall i | 0 <= i < |s| ensures !IsSpace(s[i]) {
      assert IsDigit(s[i]);
    }
  }

  lemma InkedConcat(a: string, b: string)
    requires Inked(a) && Inked(b)
    ensures Inked(a + b)
  {}

  lemma TextInked(p: Shape)
    requires ShapeOk(p)
    ensures Inked(TextOf(p))
  {
    DigitsInked(p.whole);
    DigitsInked(p.frac);
    DigitsInked(p.edigits);
    assert Inked(p.sign) && Inked(p.esign) && Inked(p.point) && Inked(p.mark);
    hide Inked, AllDigits, IsSpace;
    InkedConcat(p.esign, p.edigits);
    InkedConcat(p.mark, ExponentText(p));
    InkedConcat(p.whole, p.point);
    InkedConcat(p.whole + p.point, p.frac);
    InkedConcat(MantissaOf(p), p.mark + ExponentText(p));
    InkedConcat(p.sign, MantissaOf(p) + (p.mark + ExponentText(p)));
  }

  predicate Mantissa(m: string) { m != "" && forall i :: 0 <= i < |m| ==> IsDigit(m[i]) || m[i] == '.' }

  lemma MantissaShape(p: Shape)
    requires ShapeOk(p)
    ensures Mantissa(MantissaOf(p))
  {
    var m := MantissaOf(p);
    forall i | 0 <= i < |m| ensures IsDigit(m[i]) || m[i] == '.' {
      if i < |p.whole| {
        assert m[i] == p.whole[i];
      } else if i < |p.whole + p.point| {
        assert m[i] == '.';
      } else {
        assert m[i] == p.frac[i - |p.whole + p.point|];
      }
    }
  }

  lemma MarkAt(m: string, rest: string)
    requires Mantissa(m) && (rest == "" || rest[0] == 'e' || rest[0] == 'E')
    ensures IndexOf(m + rest, 'e', 'E') == |m|
  {
    var s := m + rest;
    var i := IndexOf(s, 'e', 'E');
    assert forall j :: 0 <= j < |m| ==> s[j] == m[j] && s[j] != 'e' && s[j] != 'E';
    if rest != "" {
      assert s[|m|] == rest[0];
    }
  }

  lemma NoName(m: string, rest: string)
    requires Mantissa(m)
    ensures ToLower(m + rest) !in {"inf", "infinity", "nan", "snan"}
  {
    assert ToLower(m + rest)[0] == m[0];
    assert "inf"[0] == 'i' && "infinity"[0] == 'i' && "nan"[0] == 'n' && "snan"[0] == 's';
  }

  predicate Within64(n: int) { -0x8000_0000_0000_0000 <= n <= 0x7FFF_FFFF_FFFF_FFFF }

  lemma AtoiShape(esign: string, edigits: string)
    requires esign in {"", "+", "-"} && edigits != "" && AllDigits(edigits)
    ensures var n: int := if esign == "-" then 0 - ValueOf(edigits) else ValueOf(edigits);
            Atoi(esign + edigits) == if Within64(n) then Integer(n) else NotInteger
  {
    hide ValueOf;
    var s := esign + edigits;
    if esign == "" {
      assert s == edigits;
    } else {
      assert s[0] == esign[0] && s[1..] == edigits;
    }
  }

  lemma MantissaReads(neg: bool, p: Shape, n: int)
    requires ShapeOk(p)
    ensures AllDigits(p.whole + p.frac)
    ensures ParseMantissa(neg, MantissaOf(p), n) == Value(Finite(neg, ValueOf(p.whole + p.frac), n - |p.frac|))
  {
    hide ParseMantissa, ValueOf, IndexOf;
    var m := MantissaOf(p);
    if p.point == "." {
      DotAt(p.whole, p.frac);
      assert m[..|p.whole|] == p.whole && m[|p.whole| + 1..] == p.frac;
    } else {
      NoDot(p.whole);
      assert m == p.whole && m[..|m|] == p.whole;
    }
    MantissaParts(neg, m, n, p.whole, p.frac);
  }

  lemma UnsignedReads(neg: bool, p: Shape)
    requires ShapeOk(p)
    ensures AllDigits(p.whole + p.frac)
    ensures ParseUnsigned(neg, MantissaOf(p) + (p.mark + ExponentText(p))) ==
            if Within64(ExponentOf(p))
            then Value(Finite(neg, ValueOf(p.whole + p.frac), ExponentOf(p) - |p.frac|)) else Invalid
  {
    hide ParseMantissa, ValueOf, IndexOf, ToLower, Atoi, ExponentText, MantissaOf;
    var m, rest := MantissaOf(p), p.mark + ExponentText(p);
    MantissaShape(p);
    NoName(m, rest);
    MantissaReads(neg, p, ExponentOf(p));
    if p.mark == "" {
      NoExponentText(p);
      MarkAt(m, rest);
      assert m + rest == m && m[..|m|] == m;
    } else {
      MarkAt(m, rest);
      assert (m + rest)[..|m|] == m && (m + rest)[|m| + 1..] == ExponentText(p);
      ExponentReads(p);
    }
  }

  lemma NoExponentText(p: Shape)
    requires ShapeOk(p) && p.mark == ""
    ensures ExponentText(p) == "" && ExponentOf(p) == 0
  {
    EmptyValue();
  }

  lemma ExponentReads(p: Shape)
    requires ShapeOk(p) && p.mark != ""
    ensures Atoi(ExponentText(p)) == if Within64(ExponentOf(p)) then Integer(ExponentOf(p)) else NotInteger
  {
    hide Atoi, ValueOf;
    AtoiShape(p.esign, p.edigits);
  }

  lemma Unsign(sign: string, rest: string)
    requires sign in {"", "+", "-"} && rest != "" && rest[0] != '+' && rest[0] != '-'
    requires Inked(sign + rest)
    ensures TrimSpace(sign + rest) == sign + rest
    ensures ParseText(sign + rest) == ParseUnsigned(sign == "-", rest)
  {
    hide ParseUnsigned;
    var s := sign + rest;
    TrimBoth("", s, "");
    assert "" + s + "" == s;
    if sign == "" {
      assert s == rest;
    } else {
      assert s[0] == sign[0] && s[1..] == rest;
    }
  }

  lemma Padded(lead: string, s: string, trail: string)
    requires Spaces(lead) && Spaces(trail) && Inked(s)
    ensures ParseText(lead + s + trail) == ParseText(s)
  {
    hide ParseUnsigned, TrimSpace;
    TrimBoth(lead, s, trail);
    TrimBoth("", s, "");
    assert "" + s + "" == s;
  }

  /** A number between spaces is read as the number it shows, if its exponent is within 64 bits, and refused if not. */
  lemma ReadsNumber(lead: string, p: Shape, trail: string)
    requires Spaces(lead) && Spaces(trail) && ShapeOk(p)
    ensures AllDigits(p.whole + p.frac)
    ensures ParseText(lead + TextOf(p) + trail) ==
            if Within64(ExponentOf(p))
            then Value(Finite(p.sign == "-", ValueOf(p.whole + p.frac), ExponentOf(p) - |p.frac|)) else Invalid
  {
    hide ParseText, ParseUnsigned, ValueOf, MantissaOf, ExponentText, Inked, Spaces;
    TextInked(p);
    Padded(lead, TextOf(p), trail);
    MantissaShape(p);
    Unsign(p.sign, MantissaOf(p) + (p.mark + ExponentText(p)));
    UnsignedReads(p.sign == "-", p);
  }

  /** A name between spaces, in any case, is read as the value it names. */
  lemma ReadsName(lead: string, sign: string, name: string, trail: string)
    requires Spaces(lead) && Spaces(trail) && sign in {"", "+", "-"}
    requires ToLower(name) in {"inf", "infinity", "nan", "snan"}
    ensures ParseText(lead + (sign + name) + trail) ==
            Value(if ToLower(name) in {"inf", "infinity"} then Infinity(sign == "-")
                  else NaN(sign == "-", ToLower(name) == "snan"))
  {
    hide ParseText;
    NameInked(name);
    assert Inked(sign);
    InkedConcat(sign, name);
    Padded(lead, sign + name, trail);
    Unsign(sign, name);
  }

  lemma NameInked(name: string)
    requires ToLower(name) in {"inf", "infinity", "nan", "snan"}
    ensures Inked(name) && name != "" && name[0] != '+' && name[0] != '-'
  {
    var lower := ToLower(name);
    forall i | 0 <= i < |name| ensures 'A' <= name[i] <= 'Z' || 'a' <= name[i] <= 'z' {
      assert 'a' <= lower[i] <= 'z';
    }
  }

  // ------------------------------------------------------------------ nothing else is read

  /** Whatever is read as a finite value is a number between spaces. */
  lemma OnlyNumbers(text: string) returns (lead: string, p: Shape, trail: string)
    requires ParseText(text).Value? && ParseText(text).d.Finite?
    ensures Spaces(lead) && Spaces(trail) && ShapeOk(p) && text == lead + TextOf(p) + trail
  {
    hide Spaces, ShapeOk, ParseUnsigned, MantissaOf, ExponentText, TrimSpace;
    lead, trail := Trimmed(text);
    var s := TrimSpace(text);
    var sign := if s[0] == '+' || s[0] == '-' then [s[0]] else "";
    var rest := s[|sign|..];
    assert s == sign + rest;
    p := OnlyUnsigned(sign, rest);
  }

  lemma OnlyUnsigned(sign: string, s: string) returns (p: Shape)
    requires sign in {"", "+", "-"} && ParseUnsigned(sign == "-", s).Value? && ParseUnsigned(sign == "-", s).d.Finite?
    ensures ShapeOk(p) && TextOf(p) == sign + s
  {
    hide IndexOf, ParseMantissa, Atoi, ValueOf, AllDigits, ToLower;
    var neg, e := sign == "-", IndexOf(s, 'e', 'E');
    if e == |s| {
      var whole, point, frac := OnlyMantissa(neg, s, 0);
      p := Shape(sign, whole, point, frac, "", "", "");
      NoneAllDigits();
      assert s + ("" + ("" + "")) == s;
    } else {
      assert Atoi(s[e + 1..]).Integer?;
      var whole, point, frac := OnlyMantissa(neg, s[..e], Atoi(s[e + 1..]).n);
      var esign, edigits := OnlyExponent(s[e + 1..]);
      p := Shape(sign, whole, point, frac, [s[e]], esign, edigits);
      assert s == s[..e] + ([s[e]] + s[e + 1..]);
    }
  }

  lemma NoneAllDigits()
    ensures AllDigits("")
  {}

  lemma OnlyExponent(s: string) returns (esign: string, edigits: string)
    requires Atoi(s).Integer?
    ensures esign in {"", "+", "-"} && edigits != "" && AllDigits(edigits) && s == esign + edigits
  {
    hide ValueOf;
    if |s| > 0 && (s[0] == '+' || s[0] == '-') {
      esign, edigits := [s[0]], s[1..];
    } else {
      esign, edigits := "", s;
    }
  }

  lemma OnlyMantissa(neg: bool, m: string, n: int) returns (whole: string, point: string, frac: string)
    requires ParseMantissa(neg, m, n).Value?
    ensures AllDigits(whole) && AllDigits(frac) && |whole| + |frac| > 0 && m == whole + point + frac
    ensures point == "." || (point == "" && frac == "")
  {
    hide ValueOf, TrimZeros, IndexOf;
    var dot := IndexOf(m, '.', '.');
    whole := m[..dot];
    point := if dot < |m| then "." else "";
    frac := if dot < |m| then m[dot + 1..] else "";
    assert AllDigits(whole + frac);
    Halves(whole, frac);
  }

  lemma Halves(a: string, b: string)
    requires AllDigits(a + b)
    ensures AllDigits(a) && AllDigits(b)
  {
    assert forall i :: 0 <= i < |a| ==> a[i] == (a + b)[i];
    assert forall i :: 0 <= i < |b| ==> b[i] == (a + b)[|a| + i];
  }

  /** Whatever is read as an infinity or as no number is a name between spaces. */
  lemma OnlyNames(text: string) returns (lead: string, sign: string, name: string, trail: string)
    requires ParseText(text).Value? && !ParseText(text).d.Finite?
    ensures Spaces(lead) && Spaces(trail) && sign in {"", "+", "-"} && text == lead + (sign + name) + trail
    ensures ToLower(name) in {"inf", "infinity", "nan", "snan"}
  {
    hide Spaces, TrimSpace, ParseUnsigned, ToLower;
    lead, trail := Trimmed(text);
    var s := TrimSpace(text);
    sign := if s[0] == '+' || s[0] == '-' then [s[0]] else "";
    name := s[|sign|..];
    assert s == sign + name;
    assert sign == "" ==> name == s;
    NamesOnly(s[0] == '-', name);
  }

  lemma NamesOnly(neg: bool, s: string)
    requires ParseUnsigned(neg, s).Value? && !ParseUnsigned(neg, s).d.Finite?
    ensures ToLower(s) in {"inf", "infinity", "nan", "snan"}
  {
    hide ParseMantissa, IndexOf, Atoi, ToLower;
    var e := IndexOf(s, 'e', 'E');
    MantissaFinite(neg, s, 0);
    if e < |s| && Atoi(s[e + 1..]).Integer? {
      MantissaFinite(neg, s[..e], Atoi(s[e + 1..]).n);
    }
  }

  lemma MantissaFinite(neg: bool, m: string, n: int)
    ensures ParseMantissa(neg, m, n).Value? ==> ParseMantissa(neg, m, n).d.Finite?
  {
    hide ValueOf, TrimZeros, IndexOf, AllDigits;
  }

  // ------------------------------------------------------------------ the text of a value

  /** A finite value is written without exponent and, but for the zeros of a zero, without superfluous zeros in front;
      a negative exponent is the number of digits after the point, and without one there is no point. */
  lemma WrittenPlainly(neg: bool, coef: nat, exp: int) returns (sign: string, whole: string, frac: string)
    ensures Render(Finite(neg, coef, exp)) == sign + (if exp < 0 then whole + "." + frac else whole)
    ensures sign == if neg && (coef > 0 || exp != 0) then "-" else ""
    ensures AllDigits(whole) && AllDigits(frac) && |whole| > 0 && |frac| == if exp < 0 then -exp else 0
    ensures coef > 0 || exp < 0 ==> whole == "0" || whole[0] != '0'
    ensures exp >= 0 ==> |whole| == |DigitsOf(coef)| + exp
    ensures AllDigits(whole + frac) && ValueOf(whole + frac) == if exp >= 0 then coef * Pow10(exp) else coef
  {
    hide Plain, ValueOf, DigitsOf, Pow10, AllDigits, NumDigits;
    DigitsStart(coef);
    PlainIsZero(coef, exp);
    sign := if neg && Plain(DigitsOf(coef), exp) != "0" then "-" else "";
    if exp >= 0 {
      whole, frac := PlainWhole(DigitsOf(coef), exp);
    } else {
      whole, frac := PlainPointed(DigitsOf(coef), exp);
    }
  }

  lemma PlainWhole(digits: string, exp: nat) returns (whole: string, frac: string)
    requires AllDigits(digits) && |digits| > 0
    ensures Plain(digits, exp) == whole && frac == "" && AllDigits(whole) && AllDigits(frac) && AllDigits(whole + frac)
    ensures |whole| == |digits| + exp && whole[0] == digits[0] && (exp == 0 ==> whole == digits)
    ensures ValueOf(whole + frac) == ValueOf(digits) * Pow10(exp)
  {
    hide ValueOf, Pow10, AllDigits;
    whole, frac := digits + Zeros(exp), "";
    NoneAllDigits();
    ValueOfConcat(digits, Zeros(exp));
    ValueOfZeros(exp);
    assert whole + "" == whole;
  }

  lemma PlainPointed(digits: string, exp: int) returns (whole: string, frac: string)
    requires AllDigits(digits) && |digits| > 0 && exp < 0 && (digits == "0" || digits[0] != '0')
    ensures Plain(digits, exp) == whole + "." + frac && AllDigits(whole) && AllDigits(frac) && AllDigits(whole + frac)
    ensures |whole| > 0 && |frac| == -exp && (whole == "0" || whole[0] != '0')
    ensures ValueOf(whole + frac) == ValueOf(digits)
  {
    hide ValueOf, Pow10, AllDigits;
    var n, k := |digits|, -exp;
    if k >= n {
      whole, frac := "0", Zeros(k - n) + digits;
      ValueOfConcat(Zeros(k - n), digits);
      ValueOfZeros(k - n);
      ZeroDigit();
      LeadingZero(frac);
      ValueOfConcat(whole, frac);
      assert whole + "." == "0.";
      assert "0." + Zeros(k - n) + digits == whole + "." + frac;
    } else {
      whole, frac := digits[..n - k], digits[n - k..];
      assert whole + frac == digits;
      Halves(whole, frac);
      assert whole[0] == digits[0];
    }
  }

  lemma ZeroDigit()
    ensures AllDigits("0") && AllDigits("")
  {}

  lemma {:induction false} DigitsStart(n: nat)
    ensures |DigitsOf(n)| > 0 && (n > 0 ==> DigitsOf(n)[0] != '0') && (n == 0 ==> DigitsOf(n) == "0")
  {
    if n >= 10 {
      DigitsStart(n / 10);
    }
  }

  lemma PlainIsZero(coef: nat, exp: int)
    ensures Plain(DigitsOf(coef), exp) == "0" <==> coef == 0 && exp == 0
  {
    DigitsStart(coef);
    hide ValueOf, DigitsOf;
    var digits := DigitsOf(coef);
    var r := Plain(digits, exp);
    assert exp > 0 ==> |r| >= 2;
    assert exp < 0 ==> |r| >= 2;
    assert exp == 0 ==> r == digits + Zeros(0) == digits;
  }
}
