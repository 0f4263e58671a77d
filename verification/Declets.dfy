/** Densely packed decimal: ten bits for three digits (section 3.5.2 of IEEE 754-2008). */
module Declets {

  /** Decodes a declet to the number of its three digits. Bit k of the declet is b_k. */
  function Unpack(bits: nat): (v: nat)
    ensures v < 1000
  {
    var n1 := bits / 2; var n2 := n1 / 2; var n3 := n2 / 2; var n4 := n3 / 2; var n5 := n4 / 2;
    var n6 := n5 / 2; var n7 := n6 / 2; var n8 := n7 / 2; var n9 := n8 / 2;
    Digits(n9 % 2, n8 % 2, n7 % 2, n6 % 2, n5 % 2, n4 % 2, n3 % 2, n2 % 2, n1 % 2, bits % 2)
  }

  type Bit = b: nat | b < 2

  function Digits(b9: Bit, b8: Bit, b7: Bit, b6: Bit, b5: Bit, b4: Bit, b3: Bit, b2: Bit, b1: Bit, b0: Bit): (v: nat)
    ensures v < 1000
  {
    var combination :=
      if b3 == 1 && b2 == 1 && b1 == 1 then 4 + 2 * b6 + b5
      else if b3 == 1 then 2 * (1 - b2) + (1 - b1)
      else 0;
    var high, mid := 4 * b9 + 2 * b8 + b7, 4 * b6 + 2 * b5 + b4;
    if combination == 0 then 100 * high + 10 * mid + (4 * b2 + 2 * b1 + b0)
    else if combination == 1 then 100 * (8 + b7) + 10 * mid + (4 * b9 + 2 * b8 + b0)
    else if combination == 2 then 100 * high + 10 * (8 + b4) + (4 * b6 + 2 * b5 + b0)
    else if combination == 3 then 100 * high + 10 * mid + (8 + b0)
    else if combination == 4 then 100 * (8 + b7) + 10 * (8 + b4) + (4 * b9 + 2 * b8 + b0)
    else if combination == 5 then 100 * (8 + b7) + 10 * (4 * b9 + 2 * b8 + b4) + (8 + b0)
    else if combination == 6 then 100 * high + 10 * (8 + b4) + (8 + b0)
    else 100 * (8 + b7) + 10 * (8 + b4) + (8 + b0)
  }

  function Assemble(b9: Bit, b8: Bit, b7: Bit, b6: Bit, b5: Bit, b4: Bit, b3: Bit, b2: Bit, b1: Bit, b0: Bit): (n: nat)
    ensures n < 1024
  {
    512 * b9 + 256 * b8 + 128 * b7 + 64 * b6 + 32 * b5 + 16 * b4 + 8 * b3 + 4 * b2 + 2 * b1 + b0
  }

  lemma Halve(n: nat, m: nat, b: Bit)
    requires n == 2 * m + b
    ensures n / 2 == m && n % 2 == b
  {}

  /** Ten bits assembled into a number come apart again. */
  lemma UnpackAssembled(b9: Bit, b8: Bit, b7: Bit, b6: Bit, b5: Bit, b4: Bit, b3: Bit, b2: Bit, b1: Bit, b0: Bit)
    ensures Unpack(Assemble(b9, b8, b7, b6, b5, b4, b3, b2, b1, b0)) == Digits(b9, b8, b7, b6, b5, b4, b3, b2, b1, b0)
  {
    var m9: nat := b9; var m8 := 2 * m9 + b8; var m7 := 2 * m8 + b7; var m6 := 2 * m7 + b6; var m5 := 2 * m6 + b5;
    var m4 := 2 * m5 + b4; var m3 := 2 * m4 + b3; var m2 := 2 * m3 + b2; var m1 := 2 * m2 + b1;
    var n := 2 * m1 + b0;
    hide Unpack, Digits;
    UnpackChain(n, m1, m2, m3, m4, m5, m6, m7, m8, b9, b8, b7, b6, b5, b4, b3, b2, b1, b0);
    assert n == Assemble(b9, b8, b7, b6, b5, b4, b3, b2, b1, b0);
  }

  lemma UnpackChain(n: nat, m1: nat, m2: nat, m3: nat, m4: nat, m5: nat, m6: nat, m7: nat, m8: nat,
                    b9: Bit, b8: Bit, b7: Bit, b6: Bit, b5: Bit, b4: Bit, b3: Bit, b2: Bit, b1: Bit, b0: Bit)
    requires n == 2 * m1 + b0 && m1 == 2 * m2 + b1 && m2 == 2 * m3 + b2 && m3 == 2 * m4 + b3 && m4 == 2 * m5 + b4
    requires m5 == 2 * m6 + b5 && m6 == 2 * m7 + b6 && m7 == 2 * m8 + b7 && m8 == 2 * b9 + b8
    ensures Unpack(n) == Digits(b9, b8, b7, b6, b5, b4, b3, b2, b1, b0)
  {
    hide Unpack, Digits;
    Halve(n, m1, b0); Halve(m1, m2, b1); Halve(m2, m3, b2); Halve(m3, m4, b3); Halve(m4, m5, b4);
    Halve(m5, m6, b5); Halve(m6, m7, b6); Halve(m7, m8, b7); Halve(m8, b9, b8);
    UnpackBy(n, m1, m2, m3, m4, m5, m6, m7, m8, b9);
  }

  lemma UnpackBy(n: nat, m1: nat, m2: nat, m3: nat, m4: nat, m5: nat, m6: nat, m7: nat, m8: nat, m9: nat)
    requires n / 2 == m1 && m1 / 2 == m2 && m2 / 2 == m3 && m3 / 2 == m4 && m4 / 2 == m5
    requires m5 / 2 == m6 && m6 / 2 == m7 && m7 / 2 == m8 && m8 / 2 == m9
    ensures Unpack(n) ==
            Digits(m9 % 2, m8 % 2, m7 % 2, m6 % 2, m5 % 2, m4 % 2, m3 % 2, m2 % 2, m1 % 2, n % 2)
  {
    hide Digits;
  }

  /** The declet of three digits, by which of them are 8 or 9. */
  function PackDigits(h: nat, t: nat, u: nat): (n: nat)
    requires h < 10 && t < 10 && u < 10
    ensures n < 1024
  {
    var Triple(_, h2, h1, h0) := Split(h);
    var Triple(_, t2, t1, t0) := Split(t);
    var Triple(_, u2, u1, u0) := Split(u);
    if h < 8 && t < 8 && u < 8 then Assemble(h2, h1, h0, t2, t1, t0, 0, u2, u1, u0)
    else if t < 8 && u < 8 then Assemble(u2, u1, h0, t2, t1, t0, 1, 1, 0, u0)
    else if h < 8 && u < 8 then Assemble(h2, h1, h0, u2, u1, t0, 1, 0, 1, u0)
    else if h < 8 && t < 8 then Assemble(h2, h1, h0, t2, t1, t0, 1, 0, 0, u0)
    else if u < 8 then Assemble(u2, u1, h0, 0, 0, t0, 1, 1, 1, u0)
    else if t < 8 then Assemble(t2, t1, h0, 0, 1, t0, 1, 1, 1, u0)
    else if h < 8 then Assemble(h2, h1, h0, 1, 0, t0, 1, 1, 1, u0)
    else Assemble(0, 0, h0, 1, 1, t0, 1, 1, 1, u0)
  }

  lemma OctalDigit(d: nat)
    requires d < 10
    ensures d < 8 ==> 4 * (d / 4 % 2) + 2 * (d / 2 % 2) + d % 2 == d
    ensures d >= 8 ==> 8 + d % 2 == d
  {}

  /** A digit as three bits when it is below 8, else as its last bit. */
  datatype Triple = Triple(d: nat, d2: Bit, d1: Bit, d0: Bit)

  function Split(d: nat): (s: Triple)
    requires d < 10
    ensures s.d == d
    ensures d < 8 ==> 4 * s.d2 + 2 * s.d1 + s.d0 == d
    ensures d >= 8 ==> 8 + s.d0 == d
  {
    OctalDigit(d);
    Triple(d, d / 4 % 2, d / 2 % 2, d % 2)
  }

  /** Every three digits have a declet. */
  lemma UnpackPacked(h: nat, t: nat, u: nat)
    requires h < 10 && t < 10 && u < 10
    ensures Unpack(PackDigits(h, t, u)) == 100 * h + 10 * t + u
  {
    var Triple(_, h2, h1, h0) := Split(h);
    var Triple(_, t2, t1, t0) := Split(t);
    var Triple(_, u2, u1, u0) := Split(u);
    hide Unpack, Assemble;
    if h < 8 && t < 8 && u < 8 {
      UnpackAssembled(h2, h1, h0, t2, t1, t0, 0, u2, u1, u0);
    } else if t < 8 && u < 8 {
      UnpackAssembled(u2, u1, h0, t2, t1, t0, 1, 1, 0, u0);
    } else if h < 8 && u < 8 {
      UnpackAssembled(h2, h1, h0, u2, u1, t0, 1, 0, 1, u0);
    } else if h < 8 && t < 8 {
      UnpackAssembled(h2, h1, h0, t2, t1, t0, 1, 0, 0, u0);
    } else if u < 8 {
      UnpackAssembled(u2, u1, h0, 0, 0, t0, 1, 1, 1, u0);
    } else if t < 8 {
      UnpackAssembled(t2, t1, h0, 0, 1, t0, 1, 1, 1, u0);
    } else if h < 8 {
      UnpackAssembled(h2, h1, h0, 1, 0, t0, 1, 1, 1, u0);
    } else {
      UnpackAssembled(0, 0, h0, 1, 1, t0, 1, 1, 1, u0);
    }
  }

  function Canonical(v: nat): (n: nat)
    requires v < 1000
    ensures n < 1024
  {
    PackDigits(v / 100, v / 10 % 10, v % 10)
  }

  lemma ThreeDigits(v: nat)
    requires v < 1000
    ensures v / 100 < 10 && v / 10 % 10 < 10 && v % 10 < 10
    ensures 100 * (v / 100) + 10 * (v / 10 % 10) + v % 10 == v
  {}

  lemma HasDeclet(v: nat)
    requires v < 1000
    ensures Unpack(Canonical(v)) == v
  {
    hide Unpack, PackDigits;
    ThreeDigits(v);
    UnpackPacked(v / 100, v / 10 % 10, v % 10);
  }

  /** The first number from `from` on that satisfies p, which `bound` does. */
  function Least(p: nat -> bool, from: nat, bound: nat): (n: nat)
    requires from <= bound && p(bound) && forall b: nat :: b < from ==> !p(b)
    ensures n <= bound && p(n) && forall b: nat :: b < n ==> !p(b)
    decreases bound - from
  {
    if p(from) then from else Least(p, from + 1, bound)
  }

  /** The lowest declet that decodes to v. */
  function Declet(v: nat): (n: nat)
    requires v < 1000
    ensures n < 1024 && Unpack(n) == v
    ensures forall b: nat :: b < n ==> Unpack(b) != v
  {
    hide Unpack, Canonical;
    HasDeclet(v);
    var decodes := (b: nat) => Unpack(b) == v;
    var n := Least(decodes, 0, Canonical(v));
    assert forall b: nat :: b < n ==> Unpack(b) != v by {
      forall b: nat | b < n ensures Unpack(b) != v {
        assert !decodes(b);
      }
    }
    n
  }

  /** Fills the table of declets by decoding all 1024 of them in order, keeping the first of each value. */
  method BuildTable() returns (t: array<int>)
    ensures t.Length == 1000
    ensures forall v :: 0 <= v < 1000 ==> t[v] == Declet(v)
  {
    hide Unpack, Declet, Canonical;
    t := new int[1000](_ => -1);
    var bits := 0;
    while bits < 1024
      invariant 0 <= bits <= 1024
      invariant forall v :: 0 <= v < 1000 ==> -1 <= t[v] < bits
      invariant forall v :: 0 <= v < 1000 && t[v] >= 0 ==> t[v] == Declet(v)
      invariant forall v :: 0 <= v < 1000 && t[v] < 0 ==> Declet(v) >= bits
    {
      var v := Unpack(bits);
      if t[v] < 0 {
        t[v] := bits;
      }
      bits := bits + 1;
    }
  }

  /** The j declets of a number of 3j digits, most significant first. */
  function Packed(v: nat, j: nat): (n: nat)
  {
    if j == 0 then 0 else Packed(v / 1000, j - 1) * 1024 + Declet(v % 1000)
  }

  function Unpacked(n: nat, j: nat): (v: nat)
  {
    if j == 0 then 0 else Unpacked(n / 1024, j - 1) * 1000 + Unpack(n % 1024)
  }

  function Pow(b: nat, j: nat): (n: nat)
    ensures b > 0 ==> n > 0
  {
    if j == 0 then 1 else b * Pow(b, j - 1)
  }

  lemma {:induction false} PackedBound(v: nat, j: nat)
    ensures Packed(v, j) < Pow(1024, j)
  {
    hide Unpack, Declet;
    if j > 0 {
      PackedBound(v / 1000, j - 1);
    }
  }

  /** Unpacking what was packed gives the number back. */
  lemma {:induction false} UnpackedPacked(v: nat, j: nat)
    requires v < Pow(1000, j)
    ensures Unpacked(Packed(v, j), j) == v
  {
    hide Unpack, Declet;
    if j > 0 {
      var p, d := Packed(v / 1000, j - 1), Declet(v % 1000);
      UnpackedPacked(v / 1000, j - 1);
      assert (p * 1024 + d) / 1024 == p && (p * 1024 + d) % 1024 == d;
      assert v == v / 1000 * 1000 + v % 1000;
    }
  }
}
