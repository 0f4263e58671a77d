/** The texts a packed or zoned field is filled from, by their shape. */
module DecimalTexts {

  import opened Wrappers
  import opened DecimalMath
  import opened DecfloatText
  import opened DecfloatTexts
  import opened DecimalDigits

  /** The exponent as it is read: of more than nine digits only the sign is kept. */
  function ExponentKnown(p: Shape): int
    requires ShapeOk(p)
  {
    if |p.edigits| <= 9 then ExponentOf(p) else if p.esign == "-" then -100001 else 100001
  }

  lemma ExponentShape(p: Shape)
    requires ShapeOk(p) && p.mark != ""
    ensures ReadExponent(ExponentText(p)) == Exponent(ExponentKnown(p), |p.edigits| > 9)
  {
    hide ValueOf;
    var s := ExponentText(p);
    if p.esign == "" {
      assert s == p.edigits;
    } else {
      assert s[0] == p.esign[0] && s[1..] == p.edigits;
    }
  }

  lemma MantissaPieces(neg: bool, p: Shape, e: DecimalDigits.Exponent)
    requires ShapeOk(p) && e.Exponent?
    ensures ReadMantissa(neg, MantissaOf(p), e) == Some(Number(neg, p.whole, p.frac, e.exp, e.long))
  {
    hide IndexOf;
    var m := MantissaOf(p);
    if p.point == "." {
      DotAt(p.whole, p.frac);
      assert m[..|p.whole|] == p.whole && m[|p.whole| + 1..] == p.frac;
    } else {
      NoDot(p.whole);
      assert m == p.whole && m[..|m|] == p.whole;
    }
  }

  /** ReadNumber from its unsigned part. */
  function Unsigned(neg: bool, s: string): Option<Number>
  {
    var i := IndexOf(s, 'e', 'E');
    var e := if i < |s| then ReadExponent(s[i + 1..]) else Exponent(0, false);
    if e.BadExponent? then None else ReadMantissa(neg, s[..i], e)
  }

  lemma UnsignedField(neg: bool, p: Shape)
    requires ShapeOk(p)
    ensures Unsigned(neg, MantissaOf(p) + (p.mark + ExponentText(p))) ==
            Some(Number(neg, p.whole, p.frac, ExponentKnown(p), |p.edigits| > 9))
  {
    hide ReadMantissa, ReadExponent, ValueOf, IndexOf, ExponentText, MantissaOf;
    var m, rest := MantissaOf(p), p.mark + ExponentText(p);
    MantissaShape(p);
    if p.mark == "" {
      NoExponentText(p);
      MarkAt(m, rest);
      assert m + rest == m && m[..|m|] == m;
      MantissaPieces(neg, p, Exponent(0, false));
    } else {
      MarkAt(m, rest);
      assert (m + rest)[..|m|] == m && (m + rest)[|m| + 1..] == ExponentText(p);
      ExponentShape(p);
      MantissaPieces(neg, p, Exponent(ExponentKnown(p), |p.edigits| > 9));
    }
  }

  lemma NumberUnsigned(text: string)
    ensures ReadNumber(text) ==
            var t := TrimSpace(text);
            var signed := t != "" && (t[0] == '+' || t[0] == '-');
            Unsigned(signed && t[0] == '-', if signed then t[1..] else t)
  {
    hide TrimSpace, IndexOf, ReadExponent, ReadMantissa;
  }

  lemma SignedField(sign: string, rest: string)
    requires sign in {"", "+", "-"} && rest != "" && rest[0] != '+' && rest[0] != '-'
    requires TrimSpace(sign + rest) == sign + rest
    ensures ReadNumber(sign + rest) == Unsigned(sign == "-", rest)
  {
    hide Unsigned, TrimSpace;
    var s := sign + rest;
    NumberUnsigned(s);
    if sign == "" {
      assert s == rest;
    } else {
      assert s[0] == sign[0] && s[1..] == rest;
    }
  }

  lemma PaddedField(lead: string, s: string, trail: string)
    requires Spaces(lead) && Spaces(trail) && Inked(s)
    ensures TrimSpace(s) == s
    ensures ReadNumber(lead + s + trail) == ReadNumber(s)
  {
    hide TrimSpace, IndexOf, ReadExponent, ReadMantissa;
    TrimBoth(lead, s, trail);
    TrimBoth("", s, "");
    assert "" + s + "" == s;
  }

  /** A number between spaces is read with its sign, its digits and its exponent. */
  lemma FieldReads(lead: string, p: Shape, trail: string)
    requires Spaces(lead) && Spaces(trail) && ShapeOk(p)
    ensures ReadNumber(lead + TextOf(p) + trail) ==
            Some(Number(p.sign == "-", p.whole, p.frac, ExponentKnown(p), |p.edigits| > 9))
  {
    hide ReadNumber, Unsigned, ExponentKnown, MantissaOf, ExponentText, Inked, Spaces, TrimSpace;
    TextInked(p);
    PaddedField(lead, TextOf(p), trail);
    MantissaShape(p);
    SignedField(p.sign, MantissaOf(p) + (p.mark + ExponentText(p)));
    UnsignedField(p.sign == "-", p);
  }

  /** Nothing else is read: neither names nor anything after the number. */
  lemma OnlyFieldNumbers(text: string) returns (lead: string, p: Shape, trail: string)
    requires ReadNumber(text).Some?
    ensures Spaces(lead) && Spaces(trail) && ShapeOk(p) && text == lead + TextOf(p) + trail
  {
    hide Spaces, ShapeOk, Unsigned, MantissaOf, ExponentText, TrimSpace, ReadNumber;
    NumberUnsigned(text);
    lead, trail := Trimmed(text);
    var s := TrimSpace(text);
    var sign := if s != "" && (s[0] == '+' || s[0] == '-') then [s[0]] else "";
    var rest := s[|sign|..];
    assert s == sign + rest;
    assert sign == "" ==> rest == s;
    p := OnlyUnsignedField(sign, s != "" && s[0] == '-', rest);
  }

  lemma OnlyUnsignedField(sign: string, neg: bool, s: string) returns (p: Shape)
    requires sign in {"", "+", "-"} && Unsigned(neg, s).Some?
    ensures ShapeOk(p) && TextOf(p) == sign + s
  {
    hide IndexOf, ReadMantissa, ReadExponent, AllDigits;
    var i := IndexOf(s, 'e', 'E');
    NoneAllDigits();
    if i == |s| {
      var whole, point, frac := OnlyMantissaField(neg, s[..i], Exponent(0, false));
      p := Shape(sign, whole, point, frac, "", "", "");
      assert s[..i] == s && s + ("" + ("" + "")) == s;
    } else {
      var whole, point, frac := OnlyMantissaField(neg, s[..i], ReadExponent(s[i + 1..]));
      var esign, edigits := OnlyExponentField(s[i + 1..]);
      p := Shape(sign, whole, point, frac, [s[i]], esign, edigits);
      assert s == s[..i] + ([s[i]] + s[i + 1..]);
    }
  }

  lemma OnlyExponentField(s: string) returns (esign: string, edigits: string)
    requires ReadExponent(s).Exponent?
    ensures esign in {"", "+", "-"} && edigits != "" && AllDigits(edigits) && s == esign + edigits
  {
    hide ValueOf;
    if |s| > 0 && (s[0] == '+' || s[0] == '-') {
      esign, edigits := [s[0]], s[1..];
    } else {
      esign, edigits := "", s;
    }
  }

  lemma OnlyMantissaField(neg: bool, m: string, e: DecimalDigits.Exponent)
      returns (whole: string, point: string, frac: string)
    requires e.Exponent? && ReadMantissa(neg, m, e).Some?
    ensures AllDigits(whole) && AllDigits(frac) && |whole| + |frac| > 0 && m == whole + point + frac
    ensures point == "." || (point == "" && frac == "")
  {
    hide IndexOf;
    var dot := IndexOf(m, '.', '.');
    whole := m[..dot];
    point := if dot < |m| then "." else "";
    frac := if dot < |m| then m[dot + 1..] else "";
  }

  /** A number is out of range exactly when it is not zero and its point stands more than 100000 places to the right of
      its first digit. */
  lemma OutOfRangeIff(n: Number, scale: nat)
    requires AllDigits(n.intPart) && AllDigits(n.fracPart)
    ensures AllDigits(n.intPart + n.fracPart)
    ensures DigitsOfNumber(n, scale).OutOfRange? <==>
            ValueOf(n.intPart + n.fracPart) > 0 && |n.intPart| + n.exp > 100000
  {
    hide ValueOf, AllZero, Assembled, IntDigits, FracDigits, ToScale;
    assert AllDigits(n.intPart + n.fracPart);
    ZeroValue(n.intPart + n.fracPart);
    AssembledIsDigits();
  }

  lemma AssembledIsDigits()
    ensures forall neg, i, f :: Assembled(neg, i, f).Digits?
  {}
}
