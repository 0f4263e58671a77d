/** Packed and zoned decimal fields: two digits a byte with a sign nibble at the end, or one digit a byte with the
    sign in the last one; and the text they decode to. */
module PackedDecimals {

  import opened Wrappers
  import opened DecimalMath
  import opened DecfloatCodec
  import opened DecfloatRounding
  import opened DecfloatText
  import opened DecimalDigits

  type Byte = b: int | 0 <= b < 256

  type Bytes = seq<Byte>

  /** The last digits that fit some slots, or as many zeros before them as it takes. */
  function Slotted(digits: string, slots: nat): (r: string)
    ensures |r| == slots && (AllDigits(digits) ==> AllDigits(r))
  {
    if |digits| >= slots then digits[|digits| - slots..] else Zeros(slots - |digits|) + digits
  }

  function Sign(negative: bool): nat { if negative then 0xD else 0xC }

  // ------------------------------------------------------------------ packing

  function PackedSize(length: nat, precision: nat): (n: nat)
    ensures n > 0
  {
    if length > 0 then length else (precision + 2) / 2
  }

  /** The bytes of 2n - 1 digits and a sign. */
  function Packed(d: string, sign: nat): Bytes
    requires AllDigits(d) && |d| % 2 == 1 && sign < 16
    decreases |d|
  {
    if |d| == 1 then [CharDigit(d[0]) * 16 + sign]
    else [CharDigit(d[0]) * 16 + CharDigit(d[1])] + Packed(d[2..], sign)
  }

  /** The digits of a field; none are one zero. */
  function OrZero(digits: string): (d: string)
    requires AllDigits(digits)
    ensures d != "" && AllDigits(d)
  {
    if digits == "" then "0" else digits
  }

  function PackedSlots(length: nat, precision: nat): (n: nat)
    ensures n % 2 == 1
  {
    2 * PackedSize(length, precision) - 1
  }

  function PackedBytes(digits: string, negative: bool, length: nat, precision: nat): Bytes
    requires AllDigits(digits)
  {
    Packed(Slotted(OrZero(digits), PackedSlots(length, precision)), Sign(negative))
  }

  method PackDecimalDigits(digits: string, negative: bool, length: nat, precision: nat) returns (r: Bytes)
    requires AllDigits(digits)
    ensures r == PackedBytes(digits, negative, length, precision)
  {
    hide Packed, AllDigits, Slotted;
    var d := OrZero(digits);
    var targetBytes := PackedSize(length, precision);
    d := Slotted(d, 2 * targetBytes - 1);
    r := FillPacked(d, if negative then 0xD else 0xC, targetBytes);
  }

  method FillPacked(d: string, sign: nat, targetBytes: nat) returns (r: Bytes)
    requires AllDigits(d) && targetBytes > 0 && |d| == 2 * targetBytes - 1 && sign < 16
    ensures r == Packed(d, sign)
  {
    hide Packed, AllDigits;
    var buf := new Byte[targetBytes](i => 0);
    var i := 0;
    SuffixDigits(d, 0);
    assert d[2 * 0..] == d && buf[..0] == [];
    while i < targetBytes - 1
      invariant 0 <= i <= targetBytes - 1 && AllDigits(d[2 * i..])
      invariant buf[..i] + Packed(d[2 * i..], sign) == Packed(d, sign)
    {
      ghost var before := buf[..i];
      SuffixDigits(d, 2 * i);
      SuffixDigits(d, 2 * (i + 1));
      PackedNext(d, i, sign);
      buf[i] := CharDigit(d[i * 2]) * 16 + CharDigit(d[i * 2 + 1]);
      assert buf[..i + 1] == before + [buf[i]];
      i := i + 1;
    }
    SuffixDigits(d, 2 * i);
    ghost var before := buf[..i];
    PackedLast(d, sign);
    buf[targetBytes - 1] := CharDigit(d[|d| - 1]) * 16 + sign;
    assert buf[..] == before + [buf[i]];
    return buf[..];
  }

  lemma SuffixDigits(d: string, i: nat)
    requires AllDigits(d) && i <= |d|
    ensures AllDigits(d[i..]) && (i < |d| ==> IsDigit(d[i])) && (i + 1 < |d| ==> IsDigit(d[i + 1]))
  {}

  lemma PackedLast(d: string, sign: nat)
    requires AllDigits(d) && |d| > 0 && sign < 16
    ensures AllDigits(d[|d| - 1..]) && Packed(d[|d| - 1..], sign) == [CharDigit(d[|d| - 1]) * 16 + sign]
  {}

  lemma PackedNext(d: string, i: nat, sign: nat)
    requires AllDigits(d) && |d| % 2 == 1 && 2 * i + 1 < |d| && sign < 16
    ensures Packed(d[2 * i..], sign) == [CharDigit(d[2 * i]) * 16 + CharDigit(d[2 * i + 1])] + Packed(d[2 * (i + 1)..], sign)
  {
    assert d[2 * i..][2..] == d[2 * (i + 1)..];
  }

  // ------------------------------------------------------------------ zoning

  function ZonedSize(digits: string, length: nat, precision: nat): nat
  {
    if length > 0 then length else if precision > 0 then precision else |digits|
  }

  /** The bytes of some digits, the sign in the high half of the last. */
  function Zoned(d: string, negative: bool): Bytes
    requires AllDigits(d)
  {
    seq(|d|, i requires 0 <= i < |d| => (if negative && i == |d| - 1 then 0xD0 else 0xF0) + CharDigit(d[i]))
  }

  function ZonedBytes(digits: string, negative: bool, length: nat, precision: nat): Bytes
    requires AllDigits(digits)
  {
    Zoned(Slotted(OrZero(digits), ZonedSize(OrZero(digits), length, precision)), negative)
  }

  method ZoneDecimalDigits(digits: string, negative: bool, length: nat, precision: nat) returns (r: Bytes)
    requires AllDigits(digits)
    ensures r == ZonedBytes(digits, negative, length, precision)
  {
    hide Zoned, AllDigits, Slotted;
    var d := OrZero(digits);
    d := Slotted(d, ZonedSize(d, length, precision));
    r := FillZoned(d, negative);
  }

  method FillZoned(d: string, negative: bool) returns (r: Bytes)
    requires AllDigits(d) && d != ""
    ensures r == Zoned(d, negative)
  {
    var buf := new Byte[|d|](i => 0);
    for i := 0 to |d|
      invariant forall k :: 0 <= k < i ==> buf[k] == 0xF0 + CharDigit(d[k])
    {
      buf[i] := 0xF0 + CharDigit(d[i]);
    }
    if negative {
      buf[buf.Length - 1] := 0xD0 + CharDigit(d[|d| - 1]);
    }
    return buf[..];
  }

  // ------------------------------------------------------------------ decoding

  datatype Unpacked = BadNibble | Nibbles(digits: string, sign: nat)

  /** The digits and the sign nibble of packed bytes. */
  function UnpackedFrom(data: Bytes): (u: Unpacked)
    requires data != []
    ensures u.Nibbles? ==> AllDigits(u.digits)
  {
    var hi, lo := data[0] / 16, data[0] % 16;
    if hi > 9 then BadNibble
    else if |data| == 1 then (if lo < 0xA then BadNibble else Nibbles([DigitChar(hi)], lo))
    else if lo > 9 then BadNibble
    else
      match UnpackedFrom(data[1..])
      case BadNibble => BadNibble
      case Nibbles(digits, sign) => Nibbles([DigitChar(hi), DigitChar(lo)] + digits, sign)
  }

  /** The text of a field: as many digits as its precision, with the point before the last `scale` of them. */
  function FieldText(digits: string, sign: nat, precision: nat, scale: int): string
  {
    var d := Slotted(digits, precision);
    (if sign == 0xB || sign == 0xD then "-" else "") + if scale > 0 then Pointed(d, scale) else d
  }

  function Pointed(d: string, scale: nat): string
  {
    var p := if scale >= |d| then Zeros(scale - |d| + 1) + d else d;
    p[..|p| - scale] + "." + p[|p| - scale..]
  }

  method DecodePackedDecimalString(data: Bytes, precision: int, scale: int) returns (r: Option<string>)
    ensures data == [] ==> r == Some("0")
    ensures data != [] && (precision < 0 || UnpackedFrom(data).BadNibble?) ==> r.None?
    ensures data != [] && precision >= 0 && UnpackedFrom(data).Nibbles? ==>
              r == Some(FieldText(UnpackedFrom(data).digits, UnpackedFrom(data).sign, precision, scale))
  {
    if |data| == 0 {
      return Some("0");
    }
    if precision < 0 {
      return None;
    }
    hide UnpackedFrom, AllDigits, FieldText;
    var digits, sign := "", 0xC;
    NothingBefore(data);
    for i := 0 to |data|
      invariant i < |data| ==> UnpackedFrom(data) == Before(digits, UnpackedFrom(data[i..]))
      invariant i == |data| ==> UnpackedFrom(data) == Nibbles(digits, sign)
    {
      UnpackedNext(data, i, digits);
      var hi, lo := data[i] / 16, data[i] % 16;
      if hi > 9 {
        return None;
      }
      if i < |data| - 1 {
        if lo > 9 {
          return None;
        }
        digits := digits + [DigitChar(hi), DigitChar(lo)];
      } else {
        if lo < 0xA {
          return None;
        }
        digits, sign := digits + [DigitChar(hi)], lo;
      }
    }
    return Some(FieldText(digits, sign, precision, scale));
  }

  lemma NothingBefore(data: Bytes)
    requires data != []
    ensures data[0..] == data && Before("", UnpackedFrom(data)) == UnpackedFrom(data)
  {}

  lemma UnpackedNext(data: Bytes, i: nat, front: string)
    requires i < |data|
    ensures var hi, lo := data[i] / 16, data[i] % 16;
            Before(front, UnpackedFrom(data[i..])) ==
              if hi > 9 then BadNibble
              else if i == |data| - 1 then (if lo < 0xA then BadNibble else Nibbles(front + [DigitChar(hi)], lo))
              else if lo > 9 then BadNibble
              else Before(front + [DigitChar(hi), DigitChar(lo)], UnpackedFrom(data[i + 1..]))
  {
    assert data[i..][0] == data[i] && data[i..][1..] == data[i + 1..];
    if i < |data| - 1 && UnpackedFrom(data[i + 1..]).Nibbles? && data[i] / 16 <= 9 && data[i] % 16 <= 9 {
      var two := [DigitChar(data[i] / 16), DigitChar(data[i] % 16)];
      assert front + (two + UnpackedFrom(data[i + 1..]).digits) == (front + two) + UnpackedFrom(data[i + 1..]).digits;
    }
  }

  function Before(front: string, u: Unpacked): Unpacked
  {
    if u.BadNibble? then BadNibble else Nibbles(front + u.digits, u.sign)
  }

  /** The low digits of zoned bytes; the sign is in the high half of the last. */
  function ZonedFrom(data: Bytes): (u: Unpacked)
    requires data != []
    ensures u.Nibbles? ==> AllDigits(u.digits) && |u.digits| == |data|
  {
    var hi, lo := data[0] / 16, data[0] % 16;
    if lo > 9 then BadNibble
    else if |data| == 1 then (if hi < 0xA then BadNibble else Nibbles([DigitChar(lo)], hi))
    else
      match ZonedFrom(data[1..])
      case BadNibble => BadNibble
      case Nibbles(digits, sign) => Nibbles([DigitChar(lo)] + digits, sign)
  }

  method DecodeZonedDecimalString(data: Bytes, precision: nat, scale: int) returns (r: Option<string>)
    ensures data == [] ==> r == Some("0")
    ensures data != [] && ZonedFrom(data).BadNibble? ==> r.None?
    ensures data != [] && ZonedFrom(data).Nibbles? ==>
              r == Some(FieldText(ZonedFrom(data).digits, ZonedFrom(data).sign, precision, scale))
  {
    if |data| == 0 {
      return Some("0");
    }
    hide ZonedFrom, AllDigits, FieldText;
    var digits, sign := "", 0xC;
    NoneZonedBefore(data);
    for i := 0 to |data|
      invariant i < |data| ==> ZonedFrom(data) == Before(digits, ZonedFrom(data[i..]))
      invariant i == |data| ==> ZonedFrom(data) == Nibbles(digits, sign)
    {
      ZonedNext(data, i, digits);
      if data[i] % 16 > 9 {
        return None;
      }
      if i == |data| - 1 {
        sign := data[i] / 16;
        if sign < 0xA {
          return None;
        }
      }
      digits := digits + [DigitChar(data[i] % 16)];
    }
    return Some(FieldText(digits, sign, precision, scale));
  }

  lemma NoneZonedBefore(data: Bytes)
    requires data != []
    ensures data[0..] == data && Before("", ZonedFrom(data)) == ZonedFrom(data)
  {}

  lemma ZonedNext(data: Bytes, i: nat, front: string)
    requires i < |data|
    ensures var hi, lo := data[i] / 16, data[i] % 16;
            Before(front, ZonedFrom(data[i..])) ==
              if lo > 9 then BadNibble
              else if i == |data| - 1 then (if hi < 0xA then BadNibble else Nibbles(front + [DigitChar(lo)], hi))
              else Before(front + [DigitChar(lo)], ZonedFrom(data[i + 1..]))
  {
    assert data[i..][0] == data[i] && data[i..][1..] == data[i + 1..];
    if i < |data| - 1 && ZonedFrom(data[i + 1..]).Nibbles? && data[i] % 16 <= 9 {
      var one := [DigitChar(data[i] % 16)];
      assert front + (one + ZonedFrom(data[i + 1..]).digits) == (front + one) + ZonedFrom(data[i + 1..]).digits;
    }
  }

  // ------------------------------------------------------------------ the round trip

  lemma DigitBack(c: char)
    requires IsDigit(c)
    ensures DigitChar(CharDigit(c)) == c
  {}

  lemma {:induction false} UnpackPacked(d: string, sign: nat)
    requires AllDigits(d) && |d| % 2 == 1 && 0xA <= sign < 16
    ensures UnpackedFrom(Packed(d, sign)) == Nibbles(d, sign)
    decreases |d|
  {
    DigitBack(d[0]);
    if |d| == 1 {
      assert d == [d[0]];
      ByteParts(CharDigit(d[0]), sign);
    } else {
      DigitBack(d[1]);
      UnpackPacked(d[2..], sign);
      ByteParts(CharDigit(d[0]), CharDigit(d[1]));
      assert d == [d[0], d[1]] + d[2..];
      var data := Packed(d, sign);
      assert data[1..] == Packed(d[2..], sign);
    }
  }

  lemma ByteParts(hi: nat, lo: nat)
    requires hi < 10 && lo < 16
    ensures (hi * 16 + lo) / 16 == hi && (hi * 16 + lo) % 16 == lo
  {}

  lemma {:induction false} UnzoneZoned(d: string, negative: bool)
    requires AllDigits(d) && d != ""
    ensures ZonedFrom(Zoned(d, negative)) == Nibbles(d, if negative then 0xD else 0xF)
  {
    DigitBack(d[0]);
    var data := Zoned(d, negative);
    if |d| == 1 {
      assert d == [d[0]];
    } else {
      UnzoneZoned(d[1..], negative);
      assert data[1..] == Zoned(d[1..], negative);
      assert d == [d[0]] + d[1..];
    }
  }

  /** Enough slots keep the value, and slots in two steps are the slots of the second. */
  lemma SlottedValue(d: string, slots: nat)
    requires AllDigits(d) && |d| <= slots
    ensures AllDigits(Slotted(d, slots)) && ValueOf(Slotted(d, slots)) == ValueOf(d)
  {
    hide ValueOf, AllDigits;
    if |d| == slots {
      assert d[0..] == d;
    } else {
      LeadingZerosValue(slots - |d|, d);
    }
  }

  lemma SlottedTwice(d: string, slots: nat, precision: nat)
    requires AllDigits(d) && |d| <= slots && |d| <= precision
    ensures Slotted(Slotted(d, slots), precision) == Slotted(d, precision)
  {}

  /** The text of a field denotes its digits at the scale. */
  lemma FieldTextDenotes(digits: string, sign: nat, precision: nat, scale: nat)
    requires AllDigits(digits) && 0 < |digits| <= precision
    ensures ParseText(FieldText(digits, sign, precision, scale)) ==
            Value(Finite(sign == 0xB || sign == 0xD, ValueOf(digits), 0 - scale))
  {
    hide ValueOf, ParseText, ParseMantissa, AllDigits, Slotted, Pointed;
    var neg := sign == 0xB || sign == 0xD;
    var d := Slotted(digits, precision);
    SlottedValue(digits, precision);
    if scale == 0 {
      SignedText(neg, d);
      PlainDenotes(neg, d);
    } else {
      SignedText(neg, Pointed(d, scale));
      PointedDenotes(neg, d, scale);
    }
  }

  lemma SignedText(neg: bool, s: string)
    ensures (if neg then "-" else "") + s == if neg then "-" + s else s
  {}

  lemma PlainDenotes(neg: bool, d: string)
    requires AllDigits(d) && d != ""
    ensures ParseText(if neg then "-" + d else d) == Value(Finite(neg, ValueOf(d), 0))
  {
    hide ValueOf, ParseText, ParseMantissa;
    ParseNumber(neg, d);
    ParsePlain(neg, d);
  }

  lemma PointedDenotes(neg: bool, d: string, scale: nat)
    requires AllDigits(d) && scale > 0
    ensures var s := Pointed(d, scale);
            ParseText(if neg then "-" + s else s) == Value(Finite(neg, ValueOf(d), 0 - scale))
  {
    hide ValueOf, ParseText, ParseMantissa, Zeros;
    var p := if scale >= |d| then Zeros(scale - |d| + 1) + d else d;
    LeadingZerosValue(if scale >= |d| then scale - |d| + 1 else 0, d);
    var i, f := p[..|p| - scale], p[|p| - scale..];
    assert i + f == p && AllDigits(i) && AllDigits(f);
    PointedNumber(neg, i, f);
  }

  lemma PointedNumber(neg: bool, i: string, f: string)
    requires AllDigits(i) && AllDigits(f) && i != ""
    ensures AllDigits(i + f)
    ensures var s := i + "." + f;
            ParseText(if neg then "-" + s else s) == Value(Finite(neg, ValueOf(i + f), 0 - |f|))
  {
    hide ValueOf, ParseText, ParseMantissa;
    ParseNumber(neg, i + "." + f);
    ParsePointed(neg, i, f);
  }

  // ------------------------------------------------------------------ from text to field and back

  /** The bytes of a DECIMAL or NUMERIC parameter: none for text that is no number, or with too many digits. */
  method EncodePackedOrZoned(text: string, length: nat, precision: nat, scale: int, packed: bool)
    returns (r: Option<Bytes>)
    ensures var d := DecimalTextDigits(text, scale);
            r == if !d.Digits? || (precision > 0 && |d.digits| > precision) then None
                 else Some(FieldBytes(d.digits, d.negative, length, precision, packed))
  {
    hide DecimalTextDigits, PackedBytes, ZonedBytes, AllDigits;
    var d := DecimalTextDigits(text, scale);
    if !d.Digits? || (precision > 0 && |d.digits| > precision) {
      return None;
    }
    DigitsAreDigits(text, scale);
    var bytes;
    if packed {
      bytes := PackDecimalDigits(d.digits, d.negative, length, precision);
    } else {
      bytes := ZoneDecimalDigits(d.digits, d.negative, length, precision);
    }
    return Some(bytes);
  }

  lemma DigitsAreDigits(text: string, scale: int)
    requires DecimalTextDigits(text, scale).Digits?
    ensures AllDigits(DecimalTextDigits(text, scale).digits)
  {
    NumberDigits(text);
    hide ReadNumber, DigitsOfNumber, AllDigits;
    OnlyDigits(ReadNumber(text).value, if scale < 0 then 0 else scale);
  }

  lemma OnlyDigits(n: Number, scale: nat)
    requires AllDigits(n.intPart) && AllDigits(n.fracPart) && DigitsOfNumber(n, scale).Digits?
    ensures AllDigits(DigitsOfNumber(n, scale).digits)
  {
    hide IntDigits, FracDigits, ToScale, Assembled, AllZero;
    var all := n.intPart + n.fracPart;
    var point := |n.intPart| + n.exp;
    var zero := AllZero(all) || point < 0 - MaxExponent;
    var digits, p := if zero then "" else all, if zero then 0 else point;
    AlignedValue(digits, p);
    FittedValue(IntDigits(digits, p), FracDigits(digits, p), scale);
    AssembledValue(n.neg, IntDigits(digits, p), ToScale(FracDigits(digits, p), scale));
  }

  function FieldBytes(digits: string, negative: bool, length: nat, precision: nat, packed: bool): Bytes
  {
    if !AllDigits(digits) then []
    else if packed then PackedBytes(digits, negative, length, precision)
    else ZonedBytes(digits, negative, length, precision)
  }

  function Decoded(data: Bytes, packed: bool): Unpacked
    requires data != []
  {
    if packed then UnpackedFrom(data) else ZonedFrom(data)
  }

  /** The length of the field has room for its precision. */
  predicate Matching(length: nat, precision: nat, packed: bool)
  {
    length == 0 || (if packed then 2 * length - 1 >= precision else length >= precision)
  }

  /** The digits of a field come back, in as many places as the precision has. */
  lemma FieldDigitsBack(digits: string, negative: bool, length: nat, precision: nat, packed: bool)
    requires AllDigits(digits) && 0 < |digits| <= precision && Matching(length, precision, packed)
    ensures var bytes := FieldBytes(digits, negative, length, precision, packed);
            && bytes != [] && Decoded(bytes, packed).Nibbles?
            && Slotted(Decoded(bytes, packed).digits, precision) == Slotted(digits, precision)
            && (negative <==> Decoded(bytes, packed).sign == 0xB || Decoded(bytes, packed).sign == 0xD)
  {
    hide UnpackedFrom, ZonedFrom, Packed, Zoned, Slotted, AllDigits;
    var slots := if packed then PackedSlots(length, precision) else ZonedSize(digits, length, precision);
    assert slots >= |digits|;
    SlottedTwice(digits, slots, precision);
    SlotsAreDigits(digits, slots);
    if packed {
      UnpackPacked(Slotted(digits, slots), Sign(negative));
      PackedSome(Slotted(digits, slots), Sign(negative));
    } else {
      UnzoneZoned(Slotted(digits, slots), negative);
      ZonedSome(Slotted(digits, slots), negative);
    }
  }

  lemma SlotsAreDigits(digits: string, slots: nat)
    requires AllDigits(digits)
    ensures AllDigits(Slotted(digits, slots)) && |Slotted(digits, slots)| == slots
  {}

  lemma PackedSome(d: string, sign: nat)
    requires AllDigits(d) && |d| % 2 == 1 && sign < 16
    ensures Packed(d, sign) != []
  {}

  lemma ZonedSome(d: string, negative: bool)
    requires AllDigits(d) && d != ""
    ensures Zoned(d, negative) != []
  {}

  /** The text decoded from a field denotes a sign and a magnitude at the scale; zero has no sign. */
  predicate DecodesTo(bytes: Bytes, packed: bool, precision: nat, scale: nat, neg: bool, coef: int)
  {
    && coef >= 0 && bytes != [] && Decoded(bytes, packed).Nibbles?
    && var u := Decoded(bytes, packed);
    ParseText(FieldText(u.digits, u.sign, precision, scale)) == Value(Finite(neg && coef != 0, coef, 0 - scale))
  }

  /** Whatever number a parameter text denotes: if it can be encoded for a field, the text decoded from the bytes
      denotes the number truncated toward zero at the scale, and zero is not negative. */
  lemma FieldRoundTrip(n: Number, length: nat, precision: nat, scale: nat, packed: bool)
    requires AllDigits(n.intPart) && AllDigits(n.fracPart) && scale <= MaxExponent
    requires DigitsOfNumber(n, scale).Digits? && precision > 0 && |DigitsOfNumber(n, scale).digits| <= precision
    requires Matching(length, precision, packed)
    ensures AllDigits(n.intPart + n.fracPart)
    ensures var d := DigitsOfNumber(n, scale);
            DecodesTo(FieldBytes(d.digits, d.negative, length, precision, packed), packed, precision, scale,
                      n.neg, Magnitude(n, scale))
  {
    hide ParseText, ValueOf, Magnitude, DigitsOfNumber, FieldBytes, Decoded, FieldText, AllDigits, Slotted;
    var d := DigitsOfNumber(n, scale);
    DigitsDenote(n, scale);
    FieldDigitsBack(d.digits, d.negative, length, precision, packed);
    var bytes := FieldBytes(d.digits, d.negative, length, precision, packed);
    var u := Decoded(bytes, packed);
    FieldTextDenotes(d.digits, u.sign, precision, scale);
    FieldTextSame(u.digits, d.digits, u.sign, precision, scale);
  }

  lemma FieldTextSame(a: string, b: string, sign: nat, precision: nat, scale: int)
    requires Slotted(a, precision) == Slotted(b, precision)
    ensures FieldText(a, sign, precision, scale) == FieldText(b, sign, precision, scale)
  {}

  lemma NumberDigits(text: string)
    requires ReadNumber(text).Some?
    ensures AllDigits(ReadNumber(text).value.intPart) && AllDigits(ReadNumber(text).value.fracPart)
  {}
}
