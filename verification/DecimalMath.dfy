/** Powers of ten, digit counts and decimal digit strings. */
module DecimalMath {

  function Pow10(n: nat): (p: nat)
    ensures p > 0
  {
    if n == 0 then 1 else 10 * Pow10(n - 1)
  }

  lemma {:induction false} Pow10Add(a: nat, b: nat)
    ensures Pow10(a + b) == Pow10(a) * Pow10(b)
  {
    if a > 0 {
      Pow10Add(a - 1, b);
      calc {
        Pow10(a + b);
        10 * Pow10(a - 1 + b);
        10 * (Pow10(a - 1) * Pow10(b));
        (10 * Pow10(a - 1)) * Pow10(b);
      }
    }
  }

  lemma {:induction false} Pow10Monotone(a: nat, b: nat)
    requires a <= b
    ensures Pow10(a) <= Pow10(b)
    decreases b
  {
    if a < b {
      Pow10Monotone(a, b - 1);
    }
  }

  /** The length of the decimal text of n. */
  function NumDigits(n: nat): (d: nat)
    ensures d > 0
  {
    if n < 10 then 1 else 1 + NumDigits(n / 10)
  }

  lemma {:induction false} DigitBounds(n: nat)
    ensures n < Pow10(NumDigits(n))
    ensures n > 0 ==> Pow10(NumDigits(n) - 1) <= n
  {
    if n < 10 {
      assert Pow10(1) == 10;
    } else {
      DigitBounds(n / 10);
    }
  }

  /** Numbers below 10^d have at most d digits, and the others more. */
  lemma DigitsBelow(n: nat, d: nat)
    requires d > 0
    ensures NumDigits(n) <= d <==> n < Pow10(d)
  {
    DigitBounds(n);
    if NumDigits(n) <= d {
      Pow10Monotone(NumDigits(n), d);
    } else if n > 0 {
      Pow10Monotone(d, NumDigits(n) - 1);
    }
  }

  // ------------------------------------------------------------------ digit strings

  predicate IsDigit(c: char) { '0' <= c <= '9' }

  predicate AllDigits(s: string) { forall i :: 0 <= i < |s| ==> IsDigit(s[i]) }

  function DigitChar(d: nat): (c: char)
    requires d < 10
    ensures IsDigit(c) && CharDigit(c) == d
  {
    '0' + (d as char)
  }

  function CharDigit(c: char): (d: nat)
    requires IsDigit(c)
    ensures d < 10
  {
    (c - '0') as nat
  }

  /** The number a digit string denotes; the empty string denotes 0. */
  function ValueOf(s: string): nat
    requires AllDigits(s)
  {
    if s == "" then 0 else 10 * ValueOf(s[..|s| - 1]) + CharDigit(s[|s| - 1])
  }

  /** The decimal text of n. */
  function DigitsOf(n: nat): (s: string)
    ensures AllDigits(s) && |s| == NumDigits(n)
    ensures ValueOf(s) == n
  {
    if n < 10 then [DigitChar(n)]
    else
      var s := DigitsOf(n / 10) + [DigitChar(n % 10)];
      assert s[..|s| - 1] == DigitsOf(n / 10);
      s
  }

  function Zeros(n: nat): (s: string)
    ensures |s| == n && AllDigits(s) && forall i :: 0 <= i < n ==> s[i] == '0'
  {
    seq(n, _ => '0')
  }

  lemma {:induction false} ValueOfConcat(a: string, b: string)
    requires AllDigits(a) && AllDigits(b)
    ensures AllDigits(a + b)
    ensures ValueOf(a + b) == ValueOf(a) * Pow10(|b|) + ValueOf(b)
  {
    if b == "" {
      assert a + b == a;
    } else {
      var b' := b[..|b| - 1];
      ValueOfConcat(a, b');
      assert (a + b)[..|a + b| - 1] == a + b';
      var d := CharDigit(b[|b| - 1]);
      calc {
        ValueOf(a + b);
        10 * ValueOf(a + b') + d;
        10 * (ValueOf(a) * Pow10(|b'|) + ValueOf(b')) + d;
        { MulTen(ValueOf(a), Pow10(|b'|)); }
        ValueOf(a) * Pow10(|b|) + (10 * ValueOf(b') + d);
      }
    }
  }

  lemma MulTen(x: int, y: int)
    ensures 10 * (x * y) == x * (10 * y)
  {}

  lemma {:induction false} ValueOfZeros(n: nat)
    ensures ValueOf(Zeros(n)) == 0
  {
    if n > 0 {
      assert Zeros(n)[..n - 1] == Zeros(n - 1);
      ValueOfZeros(n - 1);
    }
  }

  lemma {:induction false} ValueBound(s: string)
    requires AllDigits(s)
    ensures ValueOf(s) < Pow10(|s|)
  {
    if s != "" {
      ValueBound(s[..|s| - 1]);
    }
  }

  /** The text without its leading zeros. */
  function TrimZeros(s: string): (t: string)
    ensures |t| <= |s| && t == s[|s| - |t|..]
    ensures t == "" || t[0] != '0'
    ensures AllDigits(s) ==> AllDigits(t)
  {
    if s == "" || s[0] != '0' then s else TrimZeros(s[1..])
  }

  lemma {:induction false} LeadingZero(s: string)
    requires AllDigits(s)
    ensures ValueOf("0" + s) == ValueOf(s)
  {
    if s == "" {
      assert "0" + s == "0" && "0"[..0] == "";
    } else {
      LeadingZero(s[..|s| - 1]);
      assert ("0" + s)[..|s|] == "0" + s[..|s| - 1];
    }
  }

  lemma {:induction false} TrimZerosValue(s: string)
    requires AllDigits(s)
    ensures ValueOf(TrimZeros(s)) == ValueOf(s)
  {
    if s != "" && s[0] == '0' {
      TrimZerosValue(s[1..]);
      LeadingZero(s[1..]);
      assert s == "0" + s[1..];
    }
  }
}
