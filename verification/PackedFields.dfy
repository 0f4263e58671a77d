/** The bytes of packed and zoned fields, nibble by nibble, told from the value they hold; which bytes decode; and the
    shape of the decoded text. */
module PackedFields {

  import opened DecimalMath
  import opened DecfloatCodec
  import opened DecimalDigits
  import opened PackedDecimals

  /** The k-th decimal digit of v from the right. */
  function DigitAt(v: nat, k: nat): nat { if k == 0 then v % 10 else DigitAt(v / 10, k - 1) }

  // ------------------------------------------------------------------ digits by place

  lemma {:induction false} CharAtPlace(d: string, i: nat)
    requires AllDigits(d) && i < |d|
    ensures CharDigit(d[|d| - 1 - i]) == DigitAt(ValueOf(d), i)
    decreases |d|
  {
    var n := |d| - 1;
    var front := d[..n];
    assert ValueOf(d) / 10 == ValueOf(front) && ValueOf(d) % 10 == CharDigit(d[n]);
    if i > 0 {
      hide ValueOf;
      CharAtPlace(front, i - 1);
    }
  }

  lemma {:induction false} HighPlaces(v: nat, k: nat)
    requires v < Pow10(k)
    ensures DigitAt(v, k) == 0
  {
    if k > 0 {
      assert Pow10(k) == 10 * Pow10(k - 1);
      HighPlaces(v / 10, k - 1);
    }
  }

  /** Slots from the right hold the digits of the value, with zeros or without the highest digits as it takes. */
  lemma SlotAtPlace(digits: string, slots: nat, i: nat)
    requires AllDigits(digits) && i < slots
    ensures AllDigits(Slotted(digits, slots))
    ensures CharDigit(Slotted(digits, slots)[slots - 1 - i]) == DigitAt(ValueOf(digits), i)
  {
    var r := Slotted(digits, slots);
    hide ValueOf, DigitAt;
    if i < |digits| {
      CharAtPlace(digits, i);
      assert r[slots - 1 - i] == digits[|digits| - 1 - i];
    } else {
      assert r[slots - 1 - i] == '0';
      ValueBound(digits);
      Pow10Monotone(|digits|, i);
      HighPlaces(ValueOf(digits), i);
    }
  }

  // ------------------------------------------------------------------ the bytes of a field

  lemma ZeroDigit(digits: string)
    requires AllDigits(digits)
    ensures ValueOf(OrZero(digits)) == ValueOf(digits)
  {
    SmallValues();
  }

  lemma {:induction false} PackedNibbles(d: string, sign: nat, i: nat)
    requires AllDigits(d) && |d| % 2 == 1 && sign < 16 && 2 * i < |d|
    ensures |Packed(d, sign)| == (|d| + 1) / 2
    ensures i < |Packed(d, sign)|
    ensures Packed(d, sign)[i] / 16 == CharDigit(d[2 * i])
    ensures Packed(d, sign)[i] % 16 == if 2 * i == |d| - 1 then sign else CharDigit(d[2 * i + 1])
    decreases |d|
  {
    if |d| > 1 {
      PackedNibbles(d[2..], sign, if i > 0 then i - 1 else 0);
    }
  }

  /** Two digits a byte, one in the last, before the sign C or D: byte i of n holds the digits of the places
      2(n - 1 - i) and one less. */
  predicate PackedField(bytes: Bytes, v: nat, negative: bool)
  {
    var n := |bytes|;
    && n > 0
    && (forall i :: 0 <= i < n ==> bytes[i] / 16 == DigitAt(v, 2 * (n - 1 - i)))
    && (forall i :: 0 <= i < n - 1 ==> bytes[i] % 16 == DigitAt(v, 2 * (n - 1 - i) - 1))
    && bytes[n - 1] % 16 == if negative then 0xD else 0xC
  }

  lemma SlotsPacked(digits: string, negative: bool, n: nat)
    requires AllDigits(digits) && n > 0
    ensures |Packed(Slotted(digits, 2 * n - 1), Sign(negative))| == n
    ensures PackedField(Packed(Slotted(digits, 2 * n - 1), Sign(negative)), ValueOf(digits), negative)
  {
    hide Packed, Slotted, DigitAt, ValueOf, AllDigits;
    var d := Slotted(digits, 2 * n - 1);
    var bytes := Packed(d, Sign(negative));
    PackedNibbles(d, Sign(negative), n - 1);
    forall i | 0 <= i < n
      ensures bytes[i] / 16 == DigitAt(ValueOf(digits), 2 * (n - 1 - i))
      ensures i < n - 1 ==> bytes[i] % 16 == DigitAt(ValueOf(digits), 2 * (n - 1 - i) - 1)
    {
      PackedNibbles(d, Sign(negative), i);
      SlotAtPlace(digits, 2 * n - 1, 2 * (n - 1 - i));
      if i < n - 1 {
        SlotAtPlace(digits, 2 * n - 1, 2 * (n - 1 - i) - 1);
      }
    }
  }

  /** A packed field has the length of the field, or room for the precision, and holds the digits. */
  lemma PackedLayout(digits: string, negative: bool, length: nat, precision: nat)
    requires AllDigits(digits)
    ensures var bytes := FieldBytes(digits, negative, length, precision, true);
            && |bytes| == (if length > 0 then length else (precision + 2) / 2)
            && PackedField(bytes, ValueOf(digits), negative)
  {
    hide Packed, Slotted, PackedField, ValueOf;
    ZeroDigit(digits);
    SlotsPacked(OrZero(digits), negative, PackedSize(length, precision));
  }

  /** One digit a byte under the zone F, the last under D when negative. */
  predicate ZonedField(bytes: Bytes, v: nat, negative: bool)
  {
    var n := |bytes|;
    forall i :: 0 <= i < n ==>
      && bytes[i] % 16 == DigitAt(v, n - 1 - i)
      && bytes[i] / 16 == if negative && i == n - 1 then 0xD else 0xF
  }

  lemma SlotsZoned(digits: string, negative: bool, n: nat)
    requires AllDigits(digits)
    ensures ZonedField(Zoned(Slotted(digits, n), negative), ValueOf(digits), negative)
  {
    hide Slotted, DigitAt, ValueOf;
    forall i | 0 <= i < n
      ensures CharDigit(Slotted(digits, n)[i]) == DigitAt(ValueOf(digits), n - 1 - i)
    {
      SlotAtPlace(digits, n, n - 1 - i);
    }
  }

  /** A zoned field has the length of the field, or the precision, or one byte for every digit. */
  lemma ZonedLayout(digits: string, negative: bool, length: nat, precision: nat)
    requires AllDigits(digits)
    ensures var bytes := FieldBytes(digits, negative, length, precision, false);
            && |bytes| == (if length > 0 then length else if precision > 0 then precision
                           else if digits == "" then 1 else |digits|)
            && ZonedField(bytes, ValueOf(digits), negative)
  {
    hide Slotted, ZonedField, ValueOf;
    ZeroDigit(digits);
    SlotsZoned(OrZero(digits), negative, ZonedSize(OrZero(digits), length, precision));
  }

  // ------------------------------------------------------------------ the bytes that decode

  /** Packed bytes decode exactly when all nibbles are digits but the last, which is a sign from A on. */
  lemma {:induction false} PackedReads(data: Bytes)
    requires data != []
    ensures var n := |data|;
            UnpackedFrom(data).Nibbles? <==>
            && (forall i :: 0 <= i < n ==> data[i] / 16 <= 9)
            && (forall i :: 0 <= i < n - 1 ==> data[i] % 16 <= 9)
            && data[n - 1] % 16 >= 0xA
    ensures UnpackedFrom(data).Nibbles? ==>
              var u := UnpackedFrom(data);
              && |u.digits| == 2 * |data| - 1 && u.sign == data[|data| - 1] % 16
              && (forall i :: 0 <= i < |data| ==> u.digits[2 * i] == DigitChar(data[i] / 16))
              && (forall i :: 0 <= i < |data| - 1 ==> u.digits[2 * i + 1] == DigitChar(data[i] % 16))
  {
    if |data| > 1 {
      var rest := data[1..];
      PackedReads(rest);
      assert forall i :: 0 <= i < |rest| ==> rest[i] == data[i + 1];
      assert forall i :: 1 <= i < |data| ==> data[i] == rest[i - 1];
    }
  }

  /** Zoned bytes decode exactly when every low nibble is a digit and the last high nibble is a sign from A on; the
      other high nibbles do not matter. */
  lemma {:induction false} ZonedReads(data: Bytes)
    requires data != []
    ensures ZonedFrom(data).Nibbles? <==>
            (forall i :: 0 <= i < |data| ==> data[i] % 16 <= 9) && data[|data| - 1] / 16 >= 0xA
    ensures ZonedFrom(data).Nibbles? ==>
              var u := ZonedFrom(data);
              && |u.digits| == |data| && u.sign == data[|data| - 1] / 16
              && forall i :: 0 <= i < |data| ==> u.digits[i] == DigitChar(data[i] % 16)
  {
    if |data| > 1 {
      var rest := data[1..];
      ZonedReads(rest);
      assert forall i :: 0 <= i < |rest| ==> rest[i] == data[i + 1];
      assert forall i :: 1 <= i < |data| ==> data[i] == rest[i - 1];
    }
  }

  // ------------------------------------------------------------------ the text

  /** Digits with the point before the last `scale` of them, and at least one in front. */
  predicate PointedDigits(text: string, precision: nat, scale: nat)
  {
    && |text| == (if precision > scale then precision else scale + 1) + 1
    && text[|text| - scale - 1] == '.'
    && AllDigits(text[..|text| - scale - 1]) && AllDigits(text[|text| - scale..])
  }

  lemma PointedShape(d: string, scale: nat)
    requires AllDigits(d) && scale > 0
    ensures PointedDigits(Pointed(d, scale), |d|, scale)
  {
    var p := if scale >= |d| then Zeros(scale - |d| + 1) + d else d;
    assert AllDigits(p);
    var front, back := p[..|p| - scale], p[|p| - scale..];
    PointBetween(front, back);
  }

  lemma PointBetween(front: string, back: string)
    ensures var text := front + "." + back;
            && text[|text| - |back| - 1] == '.'
            && text[..|text| - |back| - 1] == front && text[|text| - |back|..] == back
  {}

  /** The text is all places of the precision, with the point, after a minus for the signs B and D. */
  lemma TextShape(digits: string, sign: nat, precision: nat, scale: int)
    requires AllDigits(digits)
    ensures var text := FieldText(digits, sign, precision, scale);
            var m := if sign == 0xB || sign == 0xD then 1 else 0;
            && m <= |text| && (m == 1 ==> text[0] == '-')
            && if scale <= 0 then |text[m..]| == precision && AllDigits(text[m..])
               else PointedDigits(text[m..], precision, scale)
  {
    hide Slotted, Pointed, PointedDigits;
    var d := Slotted(digits, precision);
    if scale > 0 {
      PointedShape(d, scale);
      AfterSign(Pointed(d, scale));
    } else {
      AfterSign(d);
    }
  }

  lemma AfterSign(s: string)
    ensures ("-" + s)[1..] == s && ("" + s)[0..] == s
  {}
}
