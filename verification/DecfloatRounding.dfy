/** Fitting a decimal value into an IEEE 754-2008 decimal format: rounding to the precision, rounding to the
    smallest exponent, and padding down to the largest. */
module DecfloatRounding {
  import opened Wrappers
  import opened DecimalMath

  /** One decimal interchange format. */
  datatype Format = Format(size: nat, precision: nat, bias: int, qmin: int, qmax: int, expContBits: nat)

  const DECFLOAT16 := Format(8, 16, 398, -398, 767 - 398, 8)
  const DECFLOAT34 := Format(16, 34, 6176, -6176, 12287 - 6176, 12)

  predicate Supported(f: Format) { f == DECFLOAT16 || f == DECFLOAT34 }

  datatype Fitted = OutOfRange | Fits(coef: nat, exp: int)

  /** coef divided by 10^drop, rounded half to even. */
  function RoundDrop(coef: nat, drop: int): nat
  {
    if drop <= 0 then coef
    else
      var p := Pow10(drop);
      var q, r := coef / p, coef % p;
      if 2 * r > p || (2 * r == p && q % 2 == 1) then q + 1 else q
  }

  /** The coefficient and exponent after rounding to the precision; a carry into a new digit drops it. */
  function ToPrecision(coef: nat, exp: int, f: Format): (nat, int)
  {
    var n := NumDigits(coef);
    if n <= f.precision then (coef, exp)
    else
      var c := RoundDrop(coef, n - f.precision);
      if NumDigits(c) > f.precision then (RoundDrop(c, 1), exp + n - f.precision + 1)
      else (c, exp + n - f.precision)
  }

  /** Below qmin the coefficient is rounded to the quantum 10^qmin. */
  function ToMinExponent(coef: nat, exp: int, f: Format): (nat, int)
  {
    if exp >= f.qmin then (coef, exp)
    else if f.qmin - exp > NumDigits(coef) then (0, f.qmin)
    else (RoundDrop(coef, f.qmin - exp), f.qmin)
  }

  /** Above qmax the coefficient is padded with zeros while they fit. */
  function ToMaxExponent(coef: nat, exp: int, f: Format): Fitted
  {
    if exp <= f.qmax then Fits(coef, exp)
    else if coef == 0 then Fits(0, f.qmax)
    else if NumDigits(coef) + (exp - f.qmax) > f.precision then OutOfRange
    else Fits(coef * Pow10(exp - f.qmax), f.qmax)
  }

  function Fit(coef: nat, exp: int, f: Format): Fitted
  {
    if coef == 0 then Fits(0, if exp > f.qmax then f.qmax else if exp < f.qmin then f.qmin else exp)
    else
      var (c1, e1) := ToPrecision(coef, exp, f);
      var (c2, e2) := ToMinExponent(c1, e1, f);
      ToMaxExponent(c2, e2, f)
  }

  // ------------------------------------------------------------------ what rounding means


  /** q is coef / 10^drop rounded to nearest, ties to even (section 4.3.1 of IEEE 754-2008). */
  predicate HalfEven(coef: nat, drop: nat, q: nat)
  {
    && 2 * Abs(coef - q * Pow10(drop)) <= Pow10(drop)
    && (2 * Abs(coef - q * Pow10(drop)) == Pow10(drop) ==> q % 2 == 0)
  }

  /** Rounding to nearest even has one answer. */
  lemma HalfEvenUnique(coef: nat, drop: nat, q: nat, q': nat)
    requires HalfEven(coef, drop, q) && HalfEven(coef, drop, q')
    ensures q == q'
  {
    var p := Pow10(drop);
    if q < q' {
      NearestApart(coef, p, q, q');
    } else if q' < q {
      NearestApart(coef, p, q', q);
    }
  }

  lemma NearestApart(coef: nat, p: nat, q: nat, q': nat)
    requires p > 0 && q < q'
    requires 2 * Abs(coef - q * p) <= p && 2 * Abs(coef - q' * p) <= p
    ensures q' == q + 1 && 2 * Abs(coef - q * p) == p && 2 * Abs(coef - q' * p) == p
  {
    assert (q' - q) * p == q' * p - q * p;
    assert (q' - q) * p <= p;
    MulAtLeast(q' - q, p);
    assert q' - q == 1;
  }

  lemma MulAtLeast(k: int, p: nat)
    requires p > 0
    ensures k >= 2 ==> k * p >= 2 * p
  {}

  lemma DivisionOf(coef: nat, p: nat)
    requires p > 0
    ensures coef == (coef / p) * p + coef % p && 0 <= coef % p < p
    ensures coef == (coef / p + 1) * p - (p - coef % p)
  {
    assert (coef / p + 1) * p == (coef / p) * p + p;
  }

  lemma RoundDropIsHalfEven(coef: nat, drop: nat)
    ensures HalfEven(coef, drop, RoundDrop(coef, drop))
  {
    if drop > 0 {
      DivisionOf(coef, Pow10(drop));
    } else {
      assert Pow10(0) == 1;
    }
  }

  // ------------------------------------------------------------------ the first step

  /** A coefficient of n digits loses n - p of them: what is left is at most 10^p. */
  lemma RoundDropBound(coef: nat, n: nat, p: nat)
    requires 0 < p < n && coef < Pow10(n) && Pow10(n - 1) <= coef
    ensures Pow10(p - 1) <= RoundDrop(coef, n - p) <= Pow10(p)
  {
    var d := n - p;
    Pow10Add(p, d);
    Pow10Add(p - 1, d);
    var q := coef / Pow10(d);
    DivisionOf(coef, Pow10(d));
    QuotientBounds(coef, Pow10(d), q, Pow10(p - 1), Pow10(p));
  }

  lemma QuotientBounds(c: nat, d: nat, q: nat, lo: nat, hi: nat)
    requires d > 0 && q == c / d && lo * d <= c < hi * d
    ensures lo <= q < hi
  {
    DivisionOf(c, d);
    MulOrder(q + 1, lo, d);
    MulOrder(hi, q, d);
  }

  lemma MulOrder(a: int, b: int, d: nat)
    ensures a <= b ==> a * d <= b * d
  {}

  /** Rounding to the precision is half-even, leaves at most p digits, and exactly p when it drops any. */
  lemma ToPrecisionFacts(coef: nat, exp: int, f: Format)
    requires coef > 0 && f.precision > 0
    ensures var (c1, e1) := ToPrecision(coef, exp, f);
            && e1 >= exp
            && 0 < c1 < Pow10(f.precision)
            && HalfEven(coef, e1 - exp, c1)
            && (e1 > exp ==> NumDigits(c1) == f.precision)
            && (e1 == exp ==> c1 == coef)
  {
    var n, p := NumDigits(coef), f.precision;
    DigitBounds(coef);
    if n <= p {
      DigitsBelow(coef, p);
      RoundDropIsHalfEven(coef, 0);
    } else {
      var d := n - p;
      var c := RoundDrop(coef, d);
      RoundDropBound(coef, n, p);
      RoundDropIsHalfEven(coef, d);
      if NumDigits(c) > p {
        DigitsBelow(c, p);
        assert c == Pow10(p) == Pow10(p - 1) * 10;
        assert RoundDrop(c, 1) == Pow10(p - 1) by {
          assert Pow10(1) == 10;
        }
        CarryIsHalfEven(coef, d, p);
        DigitsBelow(Pow10(p - 1), p);
        if p > 1 {
          DigitsBelow(Pow10(p - 1), p - 1);
        }
      } else {
        DigitsBelow(c, p);
        if p > 1 {
          DigitsBelow(c, p - 1);
        }
      }
    }
  }

  lemma CarryIsHalfEven(coef: nat, d: nat, p: nat)
    requires p > 0 && HalfEven(coef, d, Pow10(p))
    ensures HalfEven(coef, d + 1, Pow10(p - 1))
  {
    Pow10Add(p, d);
    Pow10Add(p - 1, d + 1);
  }

  // ------------------------------------------------------------------ the second step

  /** Dropping more digits than there are leaves zero. */
  lemma DropAll(c: nat, drop: nat)
    requires drop > NumDigits(c)
    ensures RoundDrop(c, drop) == 0
  {
    DigitBounds(c);
    Pow10Monotone(NumDigits(c), drop - 1);
    assert Pow10(drop) == 10 * Pow10(drop - 1);
    SmallQuotient(c, Pow10(drop));
  }

  lemma SmallQuotient(c: nat, p: nat)
    requires c < p
    ensures c / p == 0 && c % p == c
  {}

  lemma ToMinExponentIsRound(coef: nat, exp: int, f: Format)
    requires exp < f.qmin
    ensures ToMinExponent(coef, exp, f) == (RoundDrop(coef, f.qmin - exp), f.qmin)
  {
    if f.qmin - exp > NumDigits(coef) {
      DropAll(coef, f.qmin - exp);
    }
  }

  /** An error e made of a part t from the second step and a part r from the first, in units where the second
      step's quantum is m and the first's is p1. */
  lemma ErrorParts(e: int, t: int, r: int, m: int, p1: int)
    requires e == t + r && -p1 <= 2 * r <= p1 && 10 * p1 <= m && p1 > 0
    requires -m <= 2 * t <= m
    ensures 20 * Abs(e) <= 11 * m
    ensures -(m - 2 * p1) <= 2 * t <= m - 2 * p1 ==> 2 * Abs(e) < m
  {}

  /** The second step's part t of the error: s steps of p1, where s is the error of a step of p2. */
  lemma SecondPart(p1: nat, p2: nat, s: int, t: int, m: int)
    requires p1 > 0 && p2 >= 10 && p2 % 2 == 0
    requires 2 * Abs(s) <= p2
    requires t == s * p1 && m == p1 * p2
    ensures 10 * p1 <= m && -m <= 2 * t <= m
    ensures 2 * Abs(s) < p2 ==> -(m - 2 * p1) <= 2 * t <= m - 2 * p1
    ensures 2 * s == p2 ==> 2 * t == m
    ensures 2 * s == 0 - p2 ==> 2 * t == -m
  {
    TwiceProduct(s, p1, p2);
    Scale(2 * s, p2, p1);
    MulOrder(10, p2, p1);
    if 2 * Abs(s) < p2 {
      Scale(2 * s, p2 - 2, p1);
      LessTwo(p2, p1);
    }
  }

  lemma TwiceProduct(s: int, p1: int, p2: int)
    ensures 2 * (s * p1) == (2 * s) * p1
    ensures p1 * p2 == p2 * p1
    ensures 2 * s == p2 ==> (2 * s) * p1 == p2 * p1
    ensures 2 * s == 0 - p2 ==> (2 * s) * p1 == -(p2 * p1)
  {}

  lemma LessTwo(a: int, b: int)
    ensures (a - 2) * b == a * b - 2 * b
  {}

  lemma Regroup(c1: int, c2: int, p1: int, p2: int)
    ensures c2 * (p1 * p2) == (c2 * p2) * p1
    ensures (c1 - c2 * p2) * p1 == c1 * p1 - (c2 * p2) * p1
    ensures p1 * p2 == p2 * p1
  {}

  lemma Scale(x: int, b: int, p: int)
    requires -b <= x <= b && p > 0
    ensures -(b * p) <= x * p <= b * p
  {
    assert (b - x) * p >= 0 && (b + x) * p >= 0;
    assert (b - x) * p == b * p - x * p && (b + x) * p == b * p + x * p;
  }

  /** The first step landed exactly half-way for the second, the value was not there, and it lay on the side
      the tie does not go to. */
  predicate Trap(coef: nat, d1: nat, c1: nat, d2: nat)
  {
    && coef != c1 * Pow10(d1)
    && 2 * (c1 % Pow10(d2)) == Pow10(d2)
    && (coef > c1 * Pow10(d1) <==> (c1 / Pow10(d2)) % 2 == 0)
  }

  lemma EvenPower(d: nat)
    requires d > 0
    ensures Pow10(d) >= 10 && Pow10(d) % 2 == 0
  {
    var p := Pow10(d - 1);
    assert Pow10(d) == 2 * (5 * p);
  }

  /** Two half-even steps amount to one exactly outside the trap, and are never off by more than 0.55. */
  lemma DoubleRounding(coef: nat, d1: nat, c1: nat, d2: nat)
    requires HalfEven(coef, d1, c1) && d2 > 0
    ensures var c2 := RoundDrop(c1, d2);
            && (HalfEven(coef, d1 + d2, c2) <==> !Trap(coef, d1, c1, d2))
            && 20 * Abs(coef - c2 * Pow10(d1 + d2)) <= 11 * Pow10(d1 + d2)
  {
    var p1, p2 := Pow10(d1), Pow10(d2);
    var c2 := RoundDrop(c1, d2);
    RoundDropIsHalfEven(c1, d2);
    EvenPower(d2);
    Pow10Add(d1, d2);
    TieSide(c1, p2, c2);
    var m := p1 * p2;
    var r, t := coef - c1 * p1, (c1 - c2 * p2) * p1;
    Regroup(c1, c2, p1, p2);
    SecondPart(p1, p2, c1 - c2 * p2, t, m);
    ErrorParts(coef - c2 * m, t, r, m, p1);
  }

  /** Where a half-even quotient by p lies when the number is, and is not, half-way. */
  lemma TieSide(c: nat, p: nat, q: nat)
    requires p > 0 && q == (if 2 * (c % p) > p || (2 * (c % p) == p && c / p % 2 == 1) then c / p + 1 else c / p)
    ensures 2 * (c % p) == p ==> q % 2 == 0 && 2 * (c - q * p) == if c / p % 2 == 1 then 0 - p else p
    ensures 2 * (c % p) != p ==> 2 * Abs(c - q * p) < p
  {
    DivisionOf(c, p);
  }

  // ------------------------------------------------------------------ the whole

  /** c * 10^e > c' * 10^e'. */
  predicate Exceeds(c: nat, e: int, c': nat, e': int)
  {
    if e >= e' then c * Pow10(e - e') > c' else c > c' * Pow10(e' - e)
  }

  lemma {:induction false} PaddedDigits(c: nat, k: nat)
    requires c > 0
    ensures c * Pow10(k) > 0
    ensures NumDigits(c * Pow10(k)) == NumDigits(c) + k
  {
    if k > 0 {
      PaddedDigits(c, k - 1);
      MulTen(c, Pow10(k - 1));
      TenTimes(c * Pow10(k - 1));
    }
  }

  lemma TenTimes(x: nat)
    requires x > 0
    ensures NumDigits(10 * x) == NumDigits(x) + 1
  {
    assert 10 * x / 10 == x;
  }

  predicate FormatOk(f: Format) { f.precision > 0 && f.qmin <= f.qmax }

  /** Encoding fails exactly when the value, rounded to the precision, exceeds the largest finite number
      (10^p - 1) * 10^qmax. */
  lemma FitFailsIff(coef: nat, exp: int, f: Format)
    requires FormatOk(f)
    ensures Fit(coef, exp, f).OutOfRange? <==>
            coef > 0 && var (c1, e1) := ToPrecision(coef, exp, f); Exceeds(c1, e1, Pow10(f.precision) - 1, f.qmax)
  {
    if coef > 0 {
      ToPrecisionFacts(coef, exp, f);
      var (c1, e1) := ToPrecision(coef, exp, f);
      hide Pow10, NumDigits, HalfEven, ToPrecision, RoundDrop, ToMaxExponent, Exceeds, ToMinExponent;
      if e1 > f.qmax {
        KeptAbove(c1, e1, f);
        MaxFailsIff(c1, e1, f);
      } else {
        KeptBelow(c1, e1, f);
        NotExceeding(c1, e1, f);
      }
    }
  }

  lemma KeptAbove(c: nat, e: int, f: Format)
    requires FormatOk(f) && e > f.qmax
    ensures ToMinExponent(c, e, f) == (c, e)
  {}

  lemma KeptBelow(c: nat, e: int, f: Format)
    requires FormatOk(f) && e <= f.qmax
    ensures var (c2, e2) := ToMinExponent(c, e, f); ToMaxExponent(c2, e2, f) == Fits(c2, e2)
  {}

  lemma MaxFailsIff(c: nat, e: int, f: Format)
    requires c > 0 && e > f.qmax && f.precision > 0
    ensures ToMaxExponent(c, e, f).OutOfRange? <==> Exceeds(c, e, Pow10(f.precision) - 1, f.qmax)
  {
    PaddedDigits(c, e - f.qmax);
    DigitsBelow(c * Pow10(e - f.qmax), f.precision);
  }

  lemma NotExceeding(c: nat, e: int, f: Format)
    requires e <= f.qmax && c < Pow10(f.precision)
    ensures !Exceeds(c, e, Pow10(f.precision) - 1, f.qmax)
  {
    MulOrder(1, Pow10(f.qmax - e), Pow10(f.precision) - 1);
  }

  /** The digits the first step drops, and the coefficient it leaves. */
  predicate DoubleTrap(coef: nat, exp: int, f: Format)
  {
    coef > 0 &&
    var (c1, e1) := ToPrecision(coef, exp, f);
    exp < e1 < f.qmin && Trap(coef, e1 - exp, c1, f.qmin - e1)
  }

  /** What a value that fits becomes: padded exactly when its exponent is lowered, and otherwise rounded to
      the quantum of the result, within 0.55 of it always, and to nearest even exactly outside the trap of
      rounding twice. */
  lemma FitRounds(coef: nat, exp: int, f: Format)
    requires FormatOk(f) && Fit(coef, exp, f).Fits?
    ensures var r := Fit(coef, exp, f);
            && f.qmin <= r.exp <= f.qmax
            && r.coef < Pow10(f.precision)
            && (r.exp <= exp ==> r.coef == coef * Pow10(exp - r.exp))
            && (r.exp >= exp ==>
                  && 20 * Abs(coef - r.coef * Pow10(r.exp - exp)) <= 11 * Pow10(r.exp - exp)
                  && (HalfEven(coef, r.exp - exp, r.coef) <==> !DoubleTrap(coef, exp, f)))
  {
    var r := Fit(coef, exp, f);
    if coef == 0 {
      ZeroFits(exp, f);
    } else {
      ToPrecisionFacts(coef, exp, f);
      var (c1, e1) := ToPrecision(coef, exp, f);
      hide Pow10, NumDigits, HalfEven, ToPrecision, RoundDrop;
      if e1 < f.qmin {
        FitsLow(coef, exp, f, c1, e1);
      } else if e1 > f.qmax {
        FitsHigh(c1, e1, f);
      } else {
        FitsBetween(coef, e1 - exp, c1);
      }
    }
  }

  lemma ZeroFits(exp: int, f: Format)
    requires FormatOk(f)
    ensures var r := Fit(0, exp, f); f.qmin <= r.exp <= f.qmax && r.coef == 0
    ensures forall d: nat :: HalfEven(0, d, 0)
  {}

  lemma FitsLow(coef: nat, exp: int, f: Format, c1: nat, e1: int)
    requires exp <= e1 < f.qmin && HalfEven(coef, e1 - exp, c1) && c1 < Pow10(f.precision)
    requires e1 == exp ==> c1 == coef
    ensures ToMinExponent(c1, e1, f).1 == f.qmin
    ensures ToMinExponent(c1, e1, f).0 < Pow10(f.precision)
    ensures var (c2, d) := (ToMinExponent(c1, e1, f).0, f.qmin - exp);
            && 20 * Abs(coef - c2 * Pow10(d)) <= 11 * Pow10(d)
            && (HalfEven(coef, d, c2) <==> !(exp < e1 && Trap(coef, e1 - exp, c1, f.qmin - e1)))
  {
    hide Pow10, NumDigits, RoundDrop;
    ToMinExponentIsRound(c1, e1, f);
    DoubleRounding(coef, e1 - exp, c1, f.qmin - e1);
    RoundDropShrinks(c1, f.qmin - e1);
    if e1 == exp {
      RoundDropIsHalfEven(coef, f.qmin - e1);
    }
  }

  /** A value padded down to qmax was not rounded before. */
  lemma FitsHigh(c1: nat, e1: int, f: Format)
    requires c1 > 0 && e1 > f.qmax && FormatOk(f) && ToMaxExponent(c1, e1, f).Fits?
    ensures NumDigits(c1) < f.precision
    ensures c1 * Pow10(e1 - f.qmax) < Pow10(f.precision)
  {
    PaddedDigits(c1, e1 - f.qmax);
    DigitsBelow(c1 * Pow10(e1 - f.qmax), f.precision);
  }

  lemma FitsBetween(coef: nat, d: nat, c1: nat)
    requires HalfEven(coef, d, c1)
    ensures 20 * Abs(coef - c1 * Pow10(d)) <= 11 * Pow10(d)
    ensures d == 0 ==> Pow10(d) == 1 && c1 == coef
  {
    assert Pow10(0) == 1;
  }

  lemma RoundDropShrinks(c: nat, drop: nat)
    requires drop > 0
    ensures RoundDrop(c, drop) <= c
  {
    EvenPower(drop);
    ShrinkStep(c, Pow10(drop));
  }

  lemma ShrinkStep(c: nat, p: nat)
    requires p >= 10
    ensures c / p <= c && (2 * (c % p) >= p ==> c / p + 1 <= c)
  {
    var q, r := c / p, c % p;
    assert c == q * p + r;
    Shrink(c, p, q, r);
  }

  lemma Shrink(c: nat, p: nat, q: nat, r: nat)
    requires c == q * p + r && p >= 10
    ensures q <= c && (2 * r >= p ==> q + 1 <= c)
  {
    MulOrder(10, p, q);
  }

  /** Rounding twice does differ from rounding once: 20000000000000051E-400 as DECFLOAT(16). */
  lemma DoubleRoundingExample()
    ensures DoubleTrap(20000000000000051, -400, DECFLOAT16)
    ensures Fit(20000000000000051, -400, DECFLOAT16) == Fits(200000000000000, -398)
    ensures HalfEven(20000000000000051, 2, 200000000000001)
  {
    var coef := 20000000000000051;
    assert Pow10(1) == 10 && Pow10(2) == 100;
    assert NumDigits(coef) == 17 by {
      assert Pow10(4) == 10000 && Pow10(8) == 100000000 by {
        assert Pow10(3) == 1000 && Pow10(5) == 100000 && Pow10(6) == 1000000 && Pow10(7) == 10000000;
      }
      Pow10Add(8, 8);
      DigitBounds(coef);
      DigitsBelow(coef, 16);
      DigitsBelow(coef, 17);
    }
    var c1 := 2000000000000005;
    assert RoundDrop(coef, 1) == c1;
    assert NumDigits(c1) <= 16 by {
      assert Pow10(4) == 10000 && Pow10(8) == 100000000 by {
        assert Pow10(3) == 1000 && Pow10(5) == 100000 && Pow10(6) == 1000000 && Pow10(7) == 10000000;
      }
      Pow10Add(8, 8);
      DigitsBelow(c1, 16);
    }
    assert ToPrecision(coef, -400, DECFLOAT16) == (c1, -399);
    assert RoundDrop(c1, 1) == 200000000000000;
  }
}
